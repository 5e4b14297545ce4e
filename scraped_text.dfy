/**
 * Text clean-up shared by the Wikipedia and BBC scrapers: `str.strip`, `str.split`,
 * `str.replace` of one character, the year search `\b(19\d{2}|20\d{2})\b`, `re.sub(p, '', s)`
 * for the few patterns the scripts delete, and the `sorted(set)` of cleaned author names.
 */
module ScrapedText {
  import opened Wrappers
  import opened Strings
  import opened Scan
  import opened Sorting

  // ----- strip -----

  /** Length of the run of characters satisfying `drop` at the start of `s`. */
  function LeadRun(s: string, drop: char -> bool): (k: nat)
    ensures k <= |s|
    ensures forall i :: 0 <= i < k ==> drop(s[i])
    ensures k < |s| ==> !drop(s[k])
  {
    if s == [] || !drop(s[0]) then 0 else 1 + LeadRun(s[1..], drop)
  }

  /** Length of `s` once the run of characters satisfying `drop` at its end is cut off. */
  function KeptEnd(s: string, drop: char -> bool): (k: nat)
    ensures k <= |s|
    ensures forall i :: k <= i < |s| ==> drop(s[i])
    ensures k > 0 ==> !drop(s[k - 1])
  {
    if s == [] || !drop(s[|s| - 1]) then |s| else KeptEnd(s[..|s| - 1], drop)
  }

  /** `s.strip(chars)`: `s` without the characters satisfying `drop` at either end. */
  function Trim(s: string, drop: char -> bool): (r: string)
    ensures r == [] || (!drop(r[0]) && !drop(r[|r| - 1]))
  {
    var t := s[LeadRun(s, drop)..];
    t[..KeptEnd(t, drop)]
  }

  /** What `Trim` leaves is the middle of `s`, with only dropped characters cut on either side. */
  lemma TrimIsInfix(s: string, drop: char -> bool) returns (i: nat, j: nat)
    ensures i <= j <= |s| && Trim(s, drop) == s[i..j]
    ensures forall k :: 0 <= k < i ==> drop(s[k])
    ensures forall k :: j <= k < |s| ==> drop(s[k])
  {
    i := LeadRun(s, drop);
    var t := s[i..];
    j := i + KeptEnd(t, drop);
    assert forall k :: j <= k < |s| ==> s[k] == t[k - i];
  }

  /** A string that starts and ends with kept characters is its own trim. */
  lemma TrimOfTrimmed(s: string, drop: char -> bool)
    requires s == [] || (!drop(s[0]) && !drop(s[|s| - 1]))
    ensures Trim(s, drop) == s
  {
    assert s[LeadRun(s, drop)..] == s;
  }

  lemma TrimIdempotent(s: string, drop: char -> bool)
    ensures Trim(Trim(s, drop), drop) == Trim(s, drop)
  {
    TrimOfTrimmed(Trim(s, drop), drop);
  }

  /** `str.strip()`. */
  function Strip(s: string): string {
    Trim(s, IsSpace)
  }

  // ----- split, join and replace -----

  /** `s.split(c)` for a one-character separator. */
  function Split(s: string, c: char): (ps: seq<string>)
    ensures |ps| >= 1
    ensures forall i :: 0 <= i < |ps| ==> c !in ps[i]
    decreases |s|
  {
    var k := IndexOf(s, c, 0);
    if k == |s| then [s] else [s[..k]] + Split(s[k + 1..], c)
  }

  /** `sep.join(ps)`. */
  function JoinWith(ps: seq<string>, sep: string): string {
    if ps == [] then "" else if |ps| == 1 then ps[0] else ps[0] + sep + JoinWith(ps[1..], sep)
  }

  /** Splitting on `c` undoes joining with `c` when no piece contains `c`. */
  lemma {:induction false} SplitJoin(ps: seq<string>, c: char)
    requires ps != []
    requires forall i :: 0 <= i < |ps| ==> c !in ps[i]
    ensures Split(JoinWith(ps, [c]), c) == ps
  {
    var s := JoinWith(ps, [c]);
    if |ps| == 1 {
      assert IndexOf(s, c, 0) == |s|;
    } else {
      var rest := JoinWith(ps[1..], [c]);
      assert s == ps[0] + [c] + rest;
      assert s[|ps[0]|] == c;
      assert forall i :: 0 <= i < |ps[0]| ==> s[i] == ps[0][i];
      assert IndexOf(s, c, 0) == |ps[0]|;
      assert s[..|ps[0]|] == ps[0];
      assert s[|ps[0]| + 1..] == rest;
      SplitJoin(ps[1..], c);
    }
  }

  /** A separator in `s` splits it into at least two pieces. */
  lemma SplitsInTwo(s: string, c: char)
    requires c in s
    ensures |Split(s, c)| >= 2
  {
    assert IndexOf(s, c, 0) < |s|;
  }

  /** `s.replace(c, '')`. */
  function Remove(s: string, c: char): (r: string)
    ensures c !in r
    ensures forall d :: d in r ==> d in s
  {
    if s == [] then [] else (if s[0] == c then [] else [s[0]]) + Remove(s[1..], c)
  }

  lemma {:induction false} RemoveAbsent(s: string, c: char)
    requires c !in s
    ensures Remove(s, c) == s
  {
    if s != [] {
      RemoveAbsent(s[1..], c);
    }
  }

  // ----- substring search -----

  /** The first index at or after `from` where `p` occurs, or `|s|`. */
  function IndexOfText(s: string, p: string, from: nat): (k: nat)
    requires p != []
    ensures from <= |s| ==> from <= k <= |s|
    ensures k < |s| ==> IsAt(s, p, k)
    ensures forall i :: from <= i < k ==> !IsAt(s, p, i)
    decreases |s| - from
  {
    if from + |p| > |s| then |s| else if IsAt(s, p, from) then from else IndexOfText(s, p, from + 1)
  }

  /** `s.split(p)[0]`: what precedes the first occurrence of `p`. */
  function BeforeText(s: string, p: string): (r: string)
    requires p != []
    ensures r <= s
    ensures Contains(s, p) ==> IsAt(s, p, |r|)
    ensures forall i :: 0 <= i < |r| ==> !IsAt(s, p, i)
  {
    var k := IndexOfText(s, p, 0);
    if k < |s| then s[..k] else s
  }

  /** `s[from:].split(p)[-1]`: the occurrences are found left to right without overlapping. */
  function LastPiece(s: string, p: string, from: nat): string
    requires p != [] && from <= |s|
    decreases |s| - from
  {
    var k := IndexOfText(s, p, from);
    if k == |s| then s[from..] else LastPiece(s, p, k + |p|)
  }

  /** The last piece is a suffix free of `p`, right after an occurrence of `p` unless `p` never occurs. */
  lemma {:induction false} LastPieceAt(s: string, p: string, from: nat) returns (j: nat)
    requires p != [] && from <= |s|
    ensures from <= j <= |s| && LastPiece(s, p, from) == s[j..]
    ensures j == from || (j >= |p| && IsAt(s, p, j - |p|))
    ensures forall i :: j <= i < |s| ==> !IsAt(s, p, i)
    decreases |s| - from
  {
    var k := IndexOfText(s, p, from);
    if k == |s| {
      j := from;
    } else {
      j := LastPieceAt(s, p, k + |p|);
    }
  }

  // ----- the year token -----

  /** `\b(19\d{2}|20\d{2})\b` matched at position `i`, as the `int` of the group. */
  function YearAt(s: string, i: nat): (r: Option<int>)
    ensures r.Some? ==> 1900 <= r.value <= 2099
    ensures r.Some? ==> i + 4 <= |s| && IsDigit(s[i]) && IsDigit(s[i + 1]) && IsDigit(s[i + 2]) && IsDigit(s[i + 3])
  {
    if i + 4 <= |s| && (i == 0 || !IsWordChar(s[i - 1])) && (i + 4 == |s| || !IsWordChar(s[i + 4]))
      && ((s[i] == '1' && s[i + 1] == '9') || (s[i] == '2' && s[i + 1] == '0'))
      && IsDigit(s[i + 2]) && IsDigit(s[i + 3])
    then Some((if s[i] == '1' then 1900 else 2000) + 10 * DigitOf(s[i + 2]) + DigitOf(s[i + 3]))
    else None
  }

  /** The year is the decimal value of the four matched digits. */
  lemma YearAtValue(s: string, i: nat)
    requires YearAt(s, i).Some?
    ensures YearAt(s, i) == Some(DigitsValue(s[i..i + 4]))
  {
    var d := s[i..i + 4];
    assert d[..1][..0] == [];
    assert DigitsValue(d[..1]) == DigitOf(d[0]);
    assert d[..2][..1] == d[..1] && d[..2][1] == d[1];
    assert DigitsValue(d[..2]) == 10 * DigitOf(d[0]) + DigitOf(d[1]);
    assert d[..3][..2] == d[..2] && d[..3][2] == d[2];
    assert DigitsValue(d[..3]) == 10 * DigitsValue(d[..2]) + DigitOf(d[2]);
    assert d[..3] == d[..|d| - 1];
  }

  /** `re.search(r'\b(19\d{2}|20\d{2})\b', s)`: the leftmost year token. */
  function YearIn(s: string): Option<int> {
    Search(s, YearAt)
  }

  // ----- deleting matches -----

  /** The patterns the scrapers delete with `re.sub(pattern, '', s)`. */
  datatype Pattern =
    | RefMarker                           // \[\d+\]
    | Note                                // \s*\(.*?\)
    | AlsoKnownAs                         // \s*\(also known as.*?\)
    | TrailingNote(open: char, close: char) // \s+\(.*?\)$ and \s+\[.*?\]$
    | LifeSpan                            // \s*\(\d{4}–\d{4}\)
    | LivingSince                         // \s*\(\d{4}–\)

  const AlsoKnown := "(also known as"

  /** The first index at or after `from` that holds `close` or a newline (which `.` does not match), or `|t|`. */
  function Stop(t: string, from: nat, close: char): (k: nat)
    ensures from <= |t| ==> from <= k <= |t|
    ensures from > |t| ==> k == |t|
    ensures k < |t| ==> t[k] == close || t[k] == '\n'
    ensures forall i :: from <= i < k && i < |t| ==> t[i] != close && t[i] != '\n'
    decreases |t| - from
  {
    if from >= |t| then |t| else if t[from] == close || t[from] == '\n' then from else Stop(t, from + 1, close)
  }

  predicate DigitsAt(t: string, i: nat, n: nat) {
    i + n <= |t| && forall k :: i <= k < i + n ==> IsDigit(t[k])
  }

  predicate NoNewline(t: string, lo: nat, hi: nat)
    requires hi <= |t|
  {
    forall k :: lo <= k < hi ==> t[k] != '\n'
  }

  /** The length of the match of `p` at the start of `t`, 0 when there is none (no pattern matches the empty string). */
  function MatchLen(p: Pattern, t: string): (k: nat)
    ensures k <= |t|
    ensures k > 0 ==> k >= 2
  {
    var w := LeadRun(t, IsSpace);
    match p
    case RefMarker =>
      if t != [] && t[0] == '[' then
        var d := DigitRun(t[1..]);
        if d > 0 && 1 + d < |t| && t[1 + d] == ']' then d + 2 else 0
      else 0
    case Note =>
      if w < |t| && t[w] == '(' then
        var j := Stop(t, w + 1, ')');
        if j < |t| && t[j] == ')' then j + 1 else 0
      else 0
    case AlsoKnownAs =>
      if IsAt(t, AlsoKnown, w) then
        var j := Stop(t, w + |AlsoKnown|, ')');
        if j < |t| && t[j] == ')' then j + 1 else 0
      else 0
    case TrailingNote(o, c) =>
      var j := if |t| >= 2 && t[|t| - 1] == '\n' then |t| - 2 else |t| - 1;
      if 0 < w < j && t[w] == o && t[j] == c && NoNewline(t, w + 1, j) then j + 1 else 0
    case LifeSpan =>
      if w + 11 <= |t| && t[w] == '(' && DigitsAt(t, w + 1, 4) && t[w + 5] == '–' && DigitsAt(t, w + 6, 4) && t[w + 10] == ')'
      then w + 11 else 0
    case LivingSince =>
      if w + 7 <= |t| && t[w] == '(' && DigitsAt(t, w + 1, 4) && t[w + 5] == '–' && t[w + 6] == ')'
      then w + 7 else 0
  }

  /** The length of the match starting at each position of `s`. */
  function Lengths(p: Pattern, s: string): (m: seq<nat>)
    ensures |m| == |s|
  {
    if s == [] then [] else [MatchLen(p, s)] + Lengths(p, s[1..])
  }

  lemma {:induction false} LengthsAt(p: Pattern, s: string, k: nat)
    requires k < |s|
    ensures Lengths(p, s)[k] == MatchLen(p, s[k..])
  {
    if k > 0 {
      LengthsAt(p, s[1..], k - 1);
      assert s[1..][k - 1..] == s[k..];
    }
  }

  lemma {:induction false} LengthsSuffix(p: Pattern, s: string, j: nat)
    requires j <= |s|
    ensures Lengths(p, s)[j..] == Lengths(p, s[j..])
  {
    if j > 0 {
      LengthsSuffix(p, s[1..], j - 1);
      assert s[1..][j - 1..] == s[j..];
    }
  }

  /** Scanning `s` from position `i` with the match lengths `m`: a match is deleted and the scan resumes after it. */
  function Cut(s: string, m: seq<nat>, i: nat): (r: string)
    requires |m| == |s|
    ensures |r| <= if i <= |s| then |s| - i else 0
    decreases |s| - i
  {
    if i >= |s| then []
    else if m[i] > 0 then Cut(s, m, i + m[i])
    else [s[i]] + Cut(s, m, i + 1)
  }

  /** `re.sub(p, '', s)`. */
  function Sub(p: Pattern, s: string): (r: string)
    ensures |r| <= |s|
  {
    Cut(s, Lengths(p, s), 0)
  }

  /** Positions where no match starts are kept as they are. */
  lemma {:induction false} CutKeeps(s: string, m: seq<nat>, i: nat, j: nat)
    requires |m| == |s| && i <= j <= |s|
    requires forall k :: i <= k < j ==> m[k] == 0
    ensures Cut(s, m, i) == s[i..j] + Cut(s, m, j)
    decreases j - i
  {
    if i < j {
      CutKeeps(s, m, i + 1, j);
      assert Cut(s, m, i) == [s[i]] + Cut(s, m, i + 1);
      assert s[i..j] == [s[i]] + s[i + 1..j];
    } else {
      assert s[i..j] == [];
    }
  }

  /** With no match anywhere, `re.sub` changes nothing. */
  lemma SubUnmatched(p: Pattern, s: string)
    requires forall i :: 0 <= i < |s| ==> MatchLen(p, s[i..]) == 0
    ensures Sub(p, s) == s
  {
    var m := Lengths(p, s);
    forall k | 0 <= k < |s| ensures m[k] == 0 {
      LengthsAt(p, s, k);
    }
    CutKeeps(s, m, 0, |s|);
  }

  /** `\[\d+\]` cannot match where there is no `[`. */
  lemma NoBracketNoMarker(s: string)
    requires '[' !in s
    ensures Sub(RefMarker, s) == s
  {
    forall i | 0 <= i < |s| ensures MatchLen(RefMarker, s[i..]) == 0 {
      assert s[i..][0] == s[i];
    }
    SubUnmatched(RefMarker, s);
  }

  /** `re.sub` keeps the text before the first match and deletes that match. */
  lemma SubSplit(p: Pattern, s: string, i: nat, j: nat)
    requires i < j <= |s|
    requires forall k :: 0 <= k < i ==> MatchLen(p, s[k..]) == 0
    requires MatchLen(p, s[i..]) == j - i
    ensures Sub(p, s) == s[..i] + Sub(p, s[j..])
  {
    var m := Lengths(p, s);
    forall k | 0 <= k < i ensures m[k] == 0 {
      LengthsAt(p, s, k);
    }
    LengthsAt(p, s, i);
    CutFirstMatch(s, m, i, j);
    SubShift(p, s, j);
  }

  lemma CutFirstMatch(s: string, m: seq<nat>, i: nat, j: nat)
    requires |m| == |s| && i < j <= |s|
    requires forall k :: 0 <= k < i ==> m[k] == 0
    requires m[i] == j - i
    ensures Cut(s, m, 0) == s[..i] + Cut(s, m, j)
  {
    CutKeeps(s, m, 0, i);
    assert Cut(s, m, i) == Cut(s, m, j);
  }

  /** `[digits]` is deleted wherever it stands after a prefix free of `[`. */
  lemma MarkerDeleted(a: string, d: string, b: string)
    requires '[' !in a
    requires d != [] && forall i :: 0 <= i < |d| ==> IsDigit(d[i])
    ensures Sub(RefMarker, a + "[" + d + "]" + b) == a + Sub(RefMarker, b)
  {
    var tail := "[" + d + "]" + b;
    var s := a + tail;
    assert a + "[" + d + "]" + b == s;
    forall k | 0 <= k < |a| ensures MatchLen(RefMarker, s[k..]) == 0 {
      NoMarkerAt(a, tail, k);
    }
    assert s[|a|..] == tail;
    MarkerMatches(d, b);
    var j := |a| + |d| + 2;
    SubSplit(RefMarker, s, |a|, j);
    assert s[..|a|] == a && s[j..] == b;
  }

  lemma NoMarkerAt(a: string, tail: string, k: nat)
    requires '[' !in a && k < |a|
    ensures MatchLen(RefMarker, (a + tail)[k..]) == 0
  {
    assert (a + tail)[k..][0] == a[k];
  }

  lemma MarkerMatches(d: string, b: string)
    requires d != [] && forall i :: 0 <= i < |d| ==> IsDigit(d[i])
    ensures MatchLen(RefMarker, "[" + d + "]" + b) == |d| + 2
  {
    var t := "[" + d + "]" + b;
    assert t[1..] == d + ("]" + b);
    DigitRunPrefix(d, "]" + b);
    assert t[1 + |d|] == ']';
  }

  /** Scanning `s` from a position `j` past which no match reaches back is `re.sub` on the rest. */
  lemma SubShift(p: Pattern, s: string, j: nat)
    requires j <= |s|
    ensures Cut(s, Lengths(p, s), j) == Sub(p, s[j..])
  {
    var m, t := Lengths(p, s), s[j..];
    var n := Lengths(p, t);
    LengthsSuffix(p, s, j);
    assert forall k :: j <= k < |s| ==> m[k] == m[j..][k - j];
    CutShift(s, m, t, n, j, j);
  }

  lemma {:induction false} CutShift(s: string, m: seq<nat>, t: string, n: seq<nat>, j: nat, i: nat)
    requires |m| == |s| && |n| == |t| && j <= i && j <= |s| && t == s[j..]
    requires forall k :: j <= k < |s| ==> m[k] == n[k - j]
    ensures Cut(s, m, i) == Cut(t, n, i - j)
    decreases |s| - i
  {
    if i < |s| {
      if m[i] > 0 {
        CutShift(s, m, t, n, j, i + m[i]);
      } else {
        CutShift(s, m, t, n, j, i + 1);
        assert t[i - j] == s[i];
      }
    }
  }

  lemma {:induction false} DigitRunPrefix(d: string, rest: string)
    requires forall i :: 0 <= i < |d| ==> IsDigit(d[i])
    requires rest != [] && !IsDigit(rest[0])
    ensures DigitRun(d + rest) == |d|
  {
    if d != [] {
      assert (d + rest)[1..] == d[1..] + rest;
      DigitRunPrefix(d[1..], rest);
    }
  }

  /**
   * A note in parentheses after text that ends in a non-space and holds no `(` is deleted,
   * together with the spaces before it.
   */
  lemma NoteDeleted(a: string, ws: string, note: string)
    requires a != [] && !IsSpace(a[|a| - 1]) && '(' !in a
    requires forall i :: 0 <= i < |ws| ==> IsSpace(ws[i])
    requires ')' !in note && '\n' !in note
    ensures Sub(Note, a + ws + "(" + note + ")") == a
  {
    var tail := ws + "(" + note + ")";
    var s := a + tail;
    assert a + ws + "(" + note + ")" == s;
    forall k | 0 <= k < |a| ensures MatchLen(Note, s[k..]) == 0 {
      ParenCannotStart(Note, a, tail, k);
    }
    assert s[|a|..] == tail;
    NoteMatches(ws, note);
    SubSplit(Note, s, |a|, |s|);
    assert s[..|a|] == a && s[|s|..] == [];
  }

  /** The patterns whose match starts, after optional whitespace, with `(`. */
  predicate ParenLed(p: Pattern) {
    p.Note? || p.LifeSpan? || p.LivingSince?
  }

  /** Where the first non-space character is not `(` (or there is none), these patterns do not match. */
  lemma ParenLedNeedsParen(p: Pattern, t: string)
    requires ParenLed(p)
    requires LeadRun(t, IsSpace) == |t| || t[LeadRun(t, IsSpace)] != '('
    ensures MatchLen(p, t) == 0
  {
  }

  lemma ParenCannotStart(p: Pattern, a: string, tail: string, i: nat)
    requires ParenLed(p)
    requires i < |a| && !IsSpace(a[|a| - 1]) && '(' !in a
    ensures MatchLen(p, (a + tail)[i..]) == 0
  {
    var t := (a + tail)[i..];
    var u := a[i..];
    assert t == u + tail;
    LeadRunPrefix(u, tail, IsSpace);
    var w := LeadRun(t, IsSpace);
    assert t[w] == a[i + w];
    ParenLedNeedsParen(p, t);
  }

  /** Spaces that stop inside `u` stop at the same place in `u + m`. */
  lemma {:induction false} LeadRunPrefix(u: string, m: string, drop: char -> bool)
    requires u != [] && !drop(u[|u| - 1])
    ensures LeadRun(u + m, drop) == LeadRun(u, drop) < |u|
  {
    if drop(u[0]) {
      assert (u + m)[1..] == u[1..] + m;
      LeadRunPrefix(u[1..], m, drop);
    }
  }

  lemma NoteMatches(ws: string, note: string)
    requires forall i :: 0 <= i < |ws| ==> IsSpace(ws[i])
    requires ')' !in note && '\n' !in note
    ensures MatchLen(Note, ws + "(" + note + ")") == |ws| + |note| + 2
  {
    var t := ws + "(" + note + ")";
    LeadRunSpaces(ws, "(" + note + ")");
    assert t[|ws|] == '(';
    var j := Stop(t, |ws| + 1, ')');
    forall i | |ws| + 1 <= i < |ws| + 1 + |note| ensures t[i] != ')' && t[i] != '\n' {
      assert t[i] == note[i - |ws| - 1];
    }
    assert t[|ws| + 1 + |note|] == ')';
    assert j == |ws| + 1 + |note|;
  }

  lemma {:induction false} LeadRunSpaces(ws: string, rest: string)
    requires forall i :: 0 <= i < |ws| ==> IsSpace(ws[i])
    requires rest != [] && !IsSpace(rest[0])
    ensures LeadRun(ws + rest, IsSpace) == |ws|
  {
    if ws != [] {
      assert (ws + rest)[1..] == ws[1..] + rest;
      LeadRunSpaces(ws[1..], rest);
    }
  }

  /** `\s*\(.*?\)`, `\s*\(\d{4}–\d{4}\)` and `\s*\(\d{4}–\)` cannot match where there is no `(`. */
  lemma NoParenNoMatch(p: Pattern, s: string)
    requires ParenLed(p) && '(' !in s
    ensures Sub(p, s) == s
  {
    forall i | 0 <= i < |s| ensures MatchLen(p, s[i..]) == 0 {
      var t := s[i..];
      var w := LeadRun(t, IsSpace);
      if w < |t| {
        assert t[w] == s[i + w];
      }
      ParenLedNeedsParen(p, t);
    }
    SubUnmatched(p, s);
  }

  /** A match of a `(`-led pattern after text that ends in a non-space and holds no `(` is deleted. */
  lemma ParenTailDeleted(p: Pattern, a: string, tail: string)
    requires ParenLed(p)
    requires a != [] && !IsSpace(a[|a| - 1]) && '(' !in a
    requires tail != [] && MatchLen(p, tail) == |tail|
    ensures Sub(p, a + tail) == a
  {
    var s := a + tail;
    forall k | 0 <= k < |a| ensures MatchLen(p, s[k..]) == 0 {
      ParenCannotStart(p, a, tail, k);
    }
    assert s[|a|..] == tail;
    SubSplit(p, s, |a|, |s|);
    assert s[..|a|] == a && s[|s|..] == [];
  }

  predicate FourDigits(d: string) {
    |d| == 4 && forall i :: 0 <= i < 4 ==> IsDigit(d[i])
  }

  /** ` (dddd–dddd)`, spaces first, is one whole match of the life-span pattern. */
  lemma LifeSpanMatches(ws: string, born: string, died: string)
    requires forall i :: 0 <= i < |ws| ==> IsSpace(ws[i])
    requires FourDigits(born) && FourDigits(died)
    ensures MatchLen(LifeSpan, ws + "(" + born + "–" + died + ")") == |ws| + 11
  {
    var t := ws + "(" + born + "–" + died + ")";
    LeadRunSpaces(ws, "(" + born + "–" + died + ")");
    var w := |ws|;
    assert t[w] == '(' && t[w + 5] == '–' && t[w + 10] == ')';
    forall k | w + 1 <= k < w + 5 ensures IsDigit(t[k]) {
      assert t[k] == born[k - w - 1];
    }
    forall k | w + 6 <= k < w + 10 ensures IsDigit(t[k]) {
      assert t[k] == died[k - w - 6];
    }
  }

  /** ` (dddd–)`, spaces first, is one whole match of the living-since pattern. */
  lemma LivingSinceMatches(ws: string, born: string)
    requires forall i :: 0 <= i < |ws| ==> IsSpace(ws[i])
    requires FourDigits(born)
    ensures MatchLen(LivingSince, ws + "(" + born + "–)") == |ws| + 7
  {
    var t := ws + "(" + born + "–)";
    LeadRunSpaces(ws, "(" + born + "–)");
    var w := |ws|;
    assert t[w] == '(' && t[w + 5] == '–' && t[w + 6] == ')';
    forall k | w + 1 <= k < w + 5 ensures IsDigit(t[k]) {
      assert t[k] == born[k - w - 1];
    }
  }

  /** A trailing note cannot match where its opening character does not occur. */
  lemma NoOpenNoTrailing(s: string, o: char, c: char)
    requires o !in s
    ensures Sub(TrailingNote(o, c), s) == s
  {
    forall i | 0 <= i < |s| ensures MatchLen(TrailingNote(o, c), s[i..]) == 0 {
      var t := s[i..];
      var w := LeadRun(t, IsSpace);
      if w < |t| {
        assert t[w] == s[i + w];
      }
    }
    SubUnmatched(TrailingNote(o, c), s);
  }

  /**
   * `\s+\(.*?\)$` (or its `[...]` twin) deletes a note that closes the string, with the spaces
   * before it, when the text before those spaces ends in a non-space and holds no opener.
   */
  lemma TrailingNoteDeleted(a: string, ws: string, body: string, o: char, c: char)
    requires a != [] && !IsSpace(a[|a| - 1]) && o !in a
    requires ws != [] && forall i :: 0 <= i < |ws| ==> IsSpace(ws[i])
    requires !IsSpace(o) && '\n' !in body && c != '\n'
    ensures Sub(TrailingNote(o, c), a + ws + [o] + body + [c]) == a
  {
    var tail := ws + [o] + body + [c];
    var s := a + tail;
    assert a + ws + [o] + body + [c] == s;
    forall k | 0 <= k < |a| ensures MatchLen(TrailingNote(o, c), s[k..]) == 0 {
      TrailingCannotStart(a, tail, k, o, c);
    }
    assert s[|a|..] == tail;
    TrailingMatches(ws, body, o, c);
    SubSplit(TrailingNote(o, c), s, |a|, |s|);
    assert s[..|a|] == a && s[|s|..] == [];
  }

  lemma TrailingCannotStart(a: string, tail: string, i: nat, o: char, c: char)
    requires i < |a| && !IsSpace(a[|a| - 1]) && o !in a
    ensures MatchLen(TrailingNote(o, c), (a + tail)[i..]) == 0
  {
    var t := (a + tail)[i..];
    var u := a[i..];
    assert t == u + tail;
    LeadRunPrefix(u, tail, IsSpace);
    var w := LeadRun(t, IsSpace);
    assert t[w] == a[i + w];
  }

  lemma TrailingMatches(ws: string, body: string, o: char, c: char)
    requires ws != [] && forall i :: 0 <= i < |ws| ==> IsSpace(ws[i])
    requires !IsSpace(o) && '\n' !in body && c != '\n'
    ensures MatchLen(TrailingNote(o, c), ws + [o] + body + [c]) == |ws| + |body| + 2
  {
    var t := ws + [o] + body + [c];
    LeadRunSpaces(ws, [o] + body + [c]);
    assert t[|ws|] == o;
    assert t[|t| - 1] == c;
    forall k | |ws| + 1 <= k < |t| - 1 ensures t[k] != '\n' {
      assert t[k] == body[k - |ws| - 1];
    }
  }

  // ----- `sorted(set)` of cleaned names -----

  /** The names `f` accepts, in the order of `xs`. */
  function Names<T>(xs: seq<T>, f: T -> Option<string>): seq<string> {
    if xs == [] then []
    else Names(xs[..|xs| - 1], f) + (match f(xs[|xs| - 1]) case Some(n) => [n] case None => [])
  }

  /** A name is collected exactly when some element yields it. */
  lemma {:induction false} NamesYield<T>(xs: seq<T>, f: T -> Option<string>, y: string)
    ensures y in Names(xs, f) <==> exists i :: 0 <= i < |xs| && f(xs[i]) == Some(y)
  {
    if xs != [] {
      var init := xs[..|xs| - 1];
      NamesYield(init, f, y);
      assert forall i :: 0 <= i < |init| ==> init[i] == xs[i];
      if f(xs[|xs| - 1]) == Some(y) {
        assert y in Names(xs, f);
      }
    }
  }

  lemma SortUniqueSnoc(xs: seq<string>, x: string)
    ensures SortUnique(xs + [x]) == Insert(SortUnique(xs), x)
  {
    assert (xs + [x])[..|xs|] == xs;
  }

  lemma NamesSnoc<T>(xs: seq<T>, i: nat, f: T -> Option<string>)
    requires i < |xs|
    ensures f(xs[i]).Some? ==> Names(xs[..i + 1], f) == Names(xs[..i], f) + [f(xs[i]).value]
    ensures f(xs[i]).None? ==> Names(xs[..i + 1], f) == Names(xs[..i], f)
  {
    assert xs[..i + 1][..i] == xs[..i];
  }

  /** The loop `names.add(clean(x))` over `xs`, then `sorted(list(names))`. */
  method CollectNames<T>(xs: seq<T>, f: T -> Option<string>) returns (names: seq<string>)
    ensures names == SortUnique(Names(xs, f))
  {
    names := [];
    for i := 0 to |xs|
      invariant names == SortUnique(Names(xs[..i], f))
    {
      NamesSnoc(xs, i, f);
      var name := f(xs[i]);
      if name.Some? {
        SortUniqueSnoc(Names(xs[..i], f), name.value);
        names := Insert(names, name.value);
      }
    }
    assert xs[..|xs|] == xs;
  }
}
