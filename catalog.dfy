/** The records that flow between the search, refinement and availability stages. */
module Catalog {
  import opened Wrappers

  /** One catalog search hit: `{title, author, id, available, formats}`. */
  datatype Book = Book(title: string, author: string, id: string, available: bool, formats: seq<string>)

  /** The search artifact's value for one author: `{count, books, url}`. */
  datatype SearchEntry = SearchEntry(count: int, books: seq<Book>, url: string)

  /** A JSON object keyed by author, in insertion order. */
  predicate DistinctKeys<V>(m: seq<(string, V)>) {
    forall i, j :: 0 <= i < j < |m| ==> m[i].0 != m[j].0
  }

  predicate HasKey<V>(m: seq<(string, V)>, k: string) {
    exists i :: 0 <= i < |m| && m[i].0 == k
  }

  lemma HasKeyCons<V>(m: seq<(string, V)>, k: string)
    requires m != []
    ensures HasKey(m, k) <==> m[0].0 == k || HasKey(m[1..], k)
  {
    if HasKey(m, k) && m[0].0 != k {
      var i :| 0 <= i < |m| && m[i].0 == k;
      assert m[1..][i - 1].0 == k;
    }
    if HasKey(m[1..], k) {
      var i :| 0 <= i < |m[1..]| && m[1..][i].0 == k;
      assert m[i + 1].0 == k;
    }
  }

  /** `m[k] = v` on a Python dict: a present key keeps its place and takes the new value, a new key goes last. */
  function Put<V>(m: seq<(string, V)>, k: string, v: V): (r: seq<(string, V)>)
    ensures |r| == if HasKey(m, k) then |m| else |m| + 1
  {
    if m == [] then [(k, v)]
    else if m[0].0 == k then [(k, v)] + m[1..]
    else
      HasKeyCons(m, k);
      [m[0]] + Put(m[1..], k, v)
  }

  /** A key new to the dict is appended after the others. */
  lemma {:induction false} PutNew<V>(m: seq<(string, V)>, k: string, v: V)
    requires !HasKey(m, k)
    ensures Put(m, k, v) == m + [(k, v)]
  {
    if m != [] {
      HasKeyCons(m, k);
      PutNew(m[1..], k, v);
      assert m == [m[0]] + m[1..];
    }
  }

  /** After `m[k] = v` the keys are the old ones and `k`. */
  lemma {:induction false} PutHasKey<V>(m: seq<(string, V)>, k: string, v: V, x: string)
    ensures HasKey(Put(m, k, v), x) <==> HasKey(m, x) || x == k
  {
    var r := Put(m, k, v);
    if m == [] {
      assert r[0].0 == k;
    } else {
      HasKeyCons(r, x);
      HasKeyCons(m, x);
      if m[0].0 == k {
        assert r[1..] == m[1..];
      } else {
        assert r[1..] == Put(m[1..], k, v);
        PutHasKey(m[1..], k, v, x);
      }
    }
  }

  /** `m[k] = v` never repeats a key. */
  lemma {:induction false} PutDistinct<V>(m: seq<(string, V)>, k: string, v: V)
    requires DistinctKeys(m)
    ensures DistinctKeys(Put(m, k, v))
  {
    var r := Put(m, k, v);
    if m != [] {
      if m[0].0 == k {
        forall i | 0 <= i < |r| ensures r[i].0 == m[i].0 {}
      } else {
        var t := m[1..];
        assert DistinctKeys(t) by {
          forall i, j | 0 <= i < j < |t| ensures t[i].0 != t[j].0 {
            assert t[i] == m[i + 1] && t[j] == m[j + 1];
          }
        }
        PutDistinct(t, k, v);
        var rt := Put(t, k, v);
        assert !HasKey(t, m[0].0) by {
          forall i | 0 <= i < |t| ensures t[i].0 != m[0].0 {
            assert t[i] == m[i + 1];
          }
        }
        PutHasKey(t, k, v, m[0].0);
        assert r == [m[0]] + rt;
        forall j | 0 < j < |r| ensures r[0].0 != r[j].0 {
          assert r[j] == rt[j - 1];
        }
      }
    }
  }

  /** The catalog's detail page for a title id: `base + "/media/" + id`. */
  const LibraryBase := "https://westerncape.overdrive.com"

  function MediaUrl(id: string): (u: string)
    ensures |u| == |LibraryBase| + 7 + |id| && u[|u| - |id|..] == id
  {
    LibraryBase + "/media/" + id
  }

  /** What one availability probe reports: `(is_available, available_copies, owned_copies, description)`. */
  datatype Probe = Probe(available: bool, availableCopies: nat, ownedCopies: nat, description: Option<string>)
}
