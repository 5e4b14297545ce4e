/**
 * Character classes and string helpers shared by every script.
 *
 * Python's Unicode-aware `str.lower`, `\w`, `\s` and `\d` are restricted here to ASCII:
 * only 'A'..'Z' are lower-cased, whitespace is the set `str.isspace` accepts below U+0080,
 * digits are '0'..'9', and every character at or above U+0080 counts as a word character.
 */
module Strings {

  predicate IsSpace(c: char) {
    c == ' ' || 9 <= c as int <= 13 || 28 <= c as int <= 31
  }

  predicate IsDigit(c: char) {
    '0' <= c <= '9'
  }

  predicate IsUpper(c: char) {
    'A' <= c <= 'Z'
  }

  /** `\w`: letters, digits and the underscore (non-ASCII characters are taken as letters). */
  predicate IsWordChar(c: char) {
    'a' <= c <= 'z' || IsUpper(c) || IsDigit(c) || c == '_' || c as int >= 128
  }

  function LowerChar(c: char): (r: char)
    ensures !IsUpper(r)
    ensures !IsUpper(c) ==> r == c
    ensures IsWordChar(c) <==> IsWordChar(r)
    ensures IsSpace(c) <==> IsSpace(r)
  {
    if IsUpper(c) then (c as int + 32) as char else c
  }

  /** `str.lower()` on ASCII. */
  function Lower(s: string): (r: string)
    ensures |r| == |s|
  {
    if s == [] then [] else [LowerChar(s[0])] + Lower(s[1..])
  }

  /** `str.lower()` works character by character. */
  lemma {:induction false} LowerAt(s: string)
    ensures forall i :: 0 <= i < |s| ==> Lower(s)[i] == LowerChar(s[i])
  {
    if s != [] {
      LowerAt(s[1..]);
      assert forall i :: 0 < i < |s| ==> Lower(s)[i] == Lower(s[1..])[i - 1];
    }
  }

  /** Text without capitals is its own lower-case form. */
  lemma LowerNoUpper(s: string)
    requires forall c :: c in s ==> !IsUpper(c)
    ensures Lower(s) == s
  {
    LowerAt(s);
    assert forall i :: 0 <= i < |s| ==> s[i] in s;
  }

  lemma {:induction false} LowerIdempotent(s: string)
    ensures Lower(Lower(s)) == Lower(s)
  {
    if s != [] {
      LowerIdempotent(s[1..]);
      assert Lower(s)[1..] == Lower(s[1..]);
    }
  }

  /** `p` occurs in `s` starting at index `i`. */
  predicate IsAt(s: string, p: string, i: int) {
    0 <= i && i + |p| <= |s| && s[i..i + |p|] == p
  }

  predicate StartsWith(s: string, p: string) {
    IsAt(s, p, 0)
  }

  /** Python's `p in s`. */
  predicate Contains(s: string, p: string) {
    exists i | 0 <= i <= |s| :: IsAt(s, p, i)
  }

  lemma ContainsItself(s: string)
    ensures Contains(s, s)
  {
    assert IsAt(s, s, 0);
  }

  /** Length of the run of ASCII digits at the start of `s`. */
  function DigitRun(s: string): (k: nat)
    ensures k <= |s|
    ensures forall i :: 0 <= i < k ==> IsDigit(s[i])
    ensures k < |s| ==> !IsDigit(s[k])
  {
    if s == [] || !IsDigit(s[0]) then 0 else 1 + DigitRun(s[1..])
  }

  /** `int(d)` for a string of decimal digits. */
  function DigitsValue(d: string): nat {
    if d == [] then 0 else 10 * DigitsValue(d[..|d| - 1]) + DigitOf(d[|d| - 1])
  }

  function DigitOf(c: char): nat {
    if IsDigit(c) then c as int - '0' as int else 0
  }

  function DigitChar(d: nat): (c: char)
    requires d < 10
    ensures IsDigit(c) && DigitOf(c) == d
  {
    ('0' as int + d) as char
  }

  /** `str(n)` for a natural number: its decimal digits, without leading zeros. */
  function NatString(n: nat): (s: string)
    ensures s != [] && forall i :: 0 <= i < |s| ==> IsDigit(s[i])
    ensures |s| > 1 ==> s[0] != '0'
  {
    if n < 10 then [DigitChar(n)] else NatString(n / 10) + [DigitChar(n % 10)]
  }

  /** Reading the digits back gives the number. */
  lemma {:induction false} NatStringValue(n: nat)
    ensures DigitsValue(NatString(n)) == n
  {
    var s := NatString(n);
    if n >= 10 {
      NatStringValue(n / 10);
      assert s[..|s| - 1] == NatString(n / 10);
    } else {
      assert s[..|s| - 1] == [];
    }
  }

  /** `str(n)`: a minus sign before the digits of a negative number. */
  function IntString(n: int): string {
    if n < 0 then "-" + NatString(-n) else NatString(n)
  }

  /** `int(s)` for what `IntString` produces. */
  function IntValue(s: string): int {
    if s != [] && s[0] == '-' then 0 - DigitsValue(s[1..]) else DigitsValue(s)
  }

  lemma IntStringValue(n: int)
    ensures IntValue(IntString(n)) == n
  {
    if n < 0 {
      NatStringValue(-n);
      assert IntString(n)[1..] == NatString(-n);
    } else {
      NatStringValue(n);
    }
  }

  /** Distinct numbers print differently. */
  lemma IntStringInjective(m: int, n: int)
    requires IntString(m) == IntString(n)
    ensures m == n
  {
    IntStringValue(m);
    IntStringValue(n);
  }

  /** The first index at or after `from` that holds `c`, or `|s|`. */
  function IndexOf(s: string, c: char, from: nat): (k: nat)
    ensures from <= |s| ==> from <= k <= |s|
    ensures from > |s| ==> k == |s|
    ensures k < |s| ==> s[k] == c
    ensures forall i :: from <= i < k && i < |s| ==> s[i] != c
    decreases |s| - from
  {
    if from >= |s| then |s| else if s[from] == c then from else IndexOf(s, c, from + 1)
  }

  // ----- whitespace collapsing: `' '.join(s.split())` -----

  /** A word of `str.split()`: non-empty and free of whitespace. */
  predicate IsWord(w: string) {
    w != [] && forall i :: 0 <= i < |w| ==> !IsSpace(w[i])
  }

  /** Length of the longest whitespace-free prefix of `s`. */
  function WordLen(s: string): (k: nat)
    ensures k <= |s|
    ensures forall i :: 0 <= i < k ==> !IsSpace(s[i])
    ensures k < |s| ==> IsSpace(s[k])
  {
    if s == [] || IsSpace(s[0]) then 0 else 1 + WordLen(s[1..])
  }

  /** `str.split()` with no separator: the maximal whitespace-free runs, in order. */
  function Words(s: string): (ws: seq<string>)
    ensures forall i :: 0 <= i < |ws| ==> IsWord(ws[i])
    decreases |s|
  {
    if s == [] then []
    else if IsSpace(s[0]) then Words(s[1..])
    else
      var k := WordLen(s);
      [s[..k]] + Words(s[k..])
  }

  /** `' '.join(ws)`. */
  function Join(ws: seq<string>): string {
    if ws == [] then ""
    else if |ws| == 1 then ws[0]
    else ws[0] + " " + Join(ws[1..])
  }

  /**
   * `' '.join(s.split())`; equally `re.sub(r'\s+', ' ', s).strip()`, since both turn every
   * maximal whitespace run into one space and then drop the runs at either end.
   */
  function Collapse(s: string): string {
    Join(Words(s))
  }

  /** No leading or trailing whitespace, and every whitespace character is a single ' '. */
  predicate Collapsed(r: string) {
    forall i :: 0 <= i < |r| && IsSpace(r[i]) ==>
      r[i] == ' ' && 0 < i < |r| - 1 && !IsSpace(r[i - 1]) && !IsSpace(r[i + 1])
  }

  lemma {:induction false} JoinCollapsed(ws: seq<string>)
    requires forall i :: 0 <= i < |ws| ==> IsWord(ws[i])
    ensures Collapsed(Join(ws))
    ensures |ws| > 0 ==> |Join(ws)| > 0 && !IsSpace(Join(ws)[0]) && !IsSpace(Join(ws)[|Join(ws)| - 1])
  {
    if |ws| > 1 {
      JoinCollapsed(ws[1..]);
      var w, t := ws[0], Join(ws[1..]);
      var r := w + " " + t;
      assert r == Join(ws);
      forall i | 0 <= i < |r| && IsSpace(r[i])
        ensures r[i] == ' ' && 0 < i < |r| - 1 && !IsSpace(r[i - 1]) && !IsSpace(r[i + 1])
      {
        if i == |w| {
          assert r[i - 1] == w[|w| - 1];
          assert r[i + 1] == t[0];
        } else if i > |w| {
          assert r[i] == t[i - |w| - 1];
          assert i - 1 == |w| || r[i - 1] == t[i - 1 - |w| - 1];
          assert r[i + 1] == t[i + 1 - |w| - 1];
        }
      }
    }
  }

  lemma CollapseIsCollapsed(s: string)
    ensures Collapsed(Collapse(s))
  {
    JoinCollapsed(Words(s));
  }

  /** Splitting a word followed by a space-led (or empty) tail peels that word off. */
  lemma {:induction false} WordsOfWordThen(w: string, t: string)
    requires IsWord(w)
    requires t == [] || IsSpace(t[0])
    ensures Words(w + t) == [w] + Words(t)
  {
    WordLenOf(w, t);
    var s := w + t;
    assert s[..|w|] == w;
    assert s[|w|..] == t;
  }

  lemma {:induction false} WordLenOf(w: string, t: string)
    requires forall i :: 0 <= i < |w| ==> !IsSpace(w[i])
    requires t == [] || IsSpace(t[0])
    ensures WordLen(w + t) == |w|
  {
    if w != [] {
      assert (w + t)[1..] == w[1..] + t;
      WordLenOf(w[1..], t);
    } else {
      assert w + t == t;
    }
  }

  /** Round trip: splitting a join of words gives the words back. */
  lemma {:induction false} WordsOfJoin(ws: seq<string>)
    requires forall i :: 0 <= i < |ws| ==> IsWord(ws[i])
    ensures Words(Join(ws)) == ws
  {
    if |ws| == 1 {
      WordsOfWordThen(ws[0], "");
      assert ws[0] + "" == ws[0];
    } else if |ws| > 1 {
      var t := Join(ws[1..]);
      WordsOfJoin(ws[1..]);
      assert ws[0] + " " + t == ws[0] + (" " + t);
      WordsOfWordThen(ws[0], " " + t);
      assert (" " + t)[1..] == t;
    }
  }

  /** Collapsing whitespace twice is the same as collapsing it once. */
  lemma CollapseIdempotent(s: string)
    ensures Collapse(Collapse(s)) == Collapse(s)
  {
    WordsOfJoin(Words(s));
  }

  /** Every character of a split word comes from the input. */
  lemma {:induction false} WordsChars(s: string)
    ensures forall i, j :: 0 <= i < |Words(s)| && 0 <= j < |Words(s)[i]| ==> Words(s)[i][j] in s
    decreases |s|
  {
    if s != [] {
      if IsSpace(s[0]) {
        WordsChars(s[1..]);
      } else {
        var k := WordLen(s);
        WordsChars(s[k..]);
      }
    }
  }

  lemma {:induction false} JoinChars(ws: seq<string>)
    ensures forall c :: c in Join(ws) ==> c == ' ' || exists i, j :: 0 <= i < |ws| && 0 <= j < |ws[i]| && ws[i][j] == c
  {
    if |ws| > 1 {
      JoinChars(ws[1..]);
      forall c | c in Join(ws)
        ensures c == ' ' || exists i, j :: 0 <= i < |ws| && 0 <= j < |ws[i]| && ws[i][j] == c
      {
        if c in ws[0] {
          var j :| 0 <= j < |ws[0]| && ws[0][j] == c;
          assert ws[0][j] == c;
        } else if c != ' ' {
          assert c in Join(ws[1..]);
          var i, j :| 0 <= i < |ws[1..]| && 0 <= j < |ws[1..][i]| && ws[1..][i][j] == c;
          assert ws[i + 1][j] == c;
        }
      }
    } else if |ws| == 1 {
      forall c | c in Join(ws)
        ensures exists j :: 0 <= j < |ws[0]| && ws[0][j] == c
      {
        var j :| 0 <= j < |ws[0]| && ws[0][j] == c;
      }
    }
  }

  /** Collapsing only adds single spaces: every other character is a non-space input character. */
  lemma CollapseChars(s: string)
    ensures forall c :: c in Collapse(s) ==> c == ' ' || (c in s && !IsSpace(c))
  {
    var ws := Words(s);
    JoinChars(ws);
    WordsChars(s);
    forall c | c in Collapse(s) && c != ' '
      ensures c in s && !IsSpace(c)
    {
      var i, j :| 0 <= i < |ws| && 0 <= j < |ws[i]| && ws[i][j] == c;
      assert IsWord(ws[i]);
    }
  }
}
