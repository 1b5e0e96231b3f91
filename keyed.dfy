/**
 * Association lists keyed by `char`, as the trie keeps its children
 * (`Vec<(char, SearchTree)>`) and the three-row misclick table keeps its rows
 * (`[(char, [char; 8]); 30]`): strict ordering, a reference lookup by linear
 * scan, the binary search both sources rely on, and a sort by key.
 */
module Keyed {
  import opened Wrappers

  /** Keys strictly ascend: sorted and free of duplicates. */
  predicate StrictlySorted<V>(entries: seq<(char, V)>) {
    forall i, j :: 0 <= i < j < |entries| ==> entries[i].0 < entries[j].0
  }

  /** No two entries share a key (in any order). */
  predicate DistinctKeys<V>(entries: seq<(char, V)>) {
    forall i, j :: 0 <= i < j < |entries| ==> entries[i].0 != entries[j].0
  }

  predicate HasKey<V>(entries: seq<(char, V)>, c: char) {
    exists k :: 0 <= k < |entries| && entries[k].0 == c
  }

  /** Reference lookup: the value of the first entry whose key is `c`. */
  function Assoc<V>(entries: seq<(char, V)>, c: char): (r: Option<V>)
    ensures r.Some? <==> HasKey(entries, c)
    ensures r.Some? ==> (c, r.value) in entries
  {
    if entries == [] then None
    else if entries[0].0 == c then Some(entries[0].1)
    else
      var r := Assoc(entries[1..], c);
      assert HasKey(entries[1..], c) <==> HasKey(entries, c) by {
        if HasKey(entries, c) {
          var k :| 0 <= k < |entries| && entries[k].0 == c;
          assert entries[1..][k - 1].0 == c;
        }
        if HasKey(entries[1..], c) {
          var k :| 0 <= k < |entries[1..]| && entries[1..][k].0 == c;
          assert entries[k + 1].0 == c;
        }
      }
      r
  }

  /** With unique keys, the entry found at index `i` is the one `Assoc` returns. */
  lemma {:induction false} AssocAt<V>(entries: seq<(char, V)>, i: nat)
    requires StrictlySorted(entries)
    requires i < |entries|
    ensures Assoc(entries, entries[i].0) == Some(entries[i].1)
  {
    if i > 0 {
      assert entries[0].0 < entries[i].0;
      assert entries[1..][i - 1] == entries[i];
      AssocAt(entries[1..], i - 1);
    }
  }

  /** Inserting an entry under key `k` at any position leaves every other key's lookup alone. */
  lemma {:induction false} AssocInsertOther<V>(entries: seq<(char, V)>, i: nat, k: char, x: V, c: char)
    requires i <= |entries|
    requires c != k
    ensures Assoc(entries[..i] + [(k, x)] + entries[i..], c) == Assoc(entries, c)
  {
    var e' := entries[..i] + [(k, x)] + entries[i..];
    if i == 0 {
      assert e'[0] == (k, x) && e'[1..] == entries;
    } else {
      assert e'[0] == entries[0];
      assert e'[1..] == entries[1..][..i - 1] + [(k, x)] + entries[1..][i - 1..];
      AssocInsertOther(entries[1..], i - 1, k, x, c);
    }
  }

  /** Replacing the value at index `i` leaves every other key's lookup alone. */
  lemma {:induction false} AssocUpdateOther<V>(entries: seq<(char, V)>, i: nat, x: V, c: char)
    requires i < |entries|
    requires c != entries[i].0
    ensures Assoc(entries[i := (entries[i].0, x)], c) == Assoc(entries, c)
  {
    var e' := entries[i := (entries[i].0, x)];
    if i > 0 {
      assert e'[0] == entries[0];
      assert e'[1..] == entries[1..][i - 1 := (entries[i].0, x)];
      AssocUpdateOther(entries[1..], i - 1, x, c);
    } else {
      assert e'[1..] == entries[1..];
    }
  }

  /** The result of `<[T]>::binary_search_by_key`: `Ok(i)` or `Err(insertion point)`. */
  datatype Probe = Found(index: nat) | Missing(index: nat)

  /** Binary search for key `c` within `entries[lo..hi]`. */
  function Search<V>(entries: seq<(char, V)>, c: char, lo: nat, hi: nat): (r: Probe)
    requires lo <= hi <= |entries|
    ensures r.Found? ==> lo <= r.index < hi && entries[r.index].0 == c
    ensures r.Missing? ==> lo <= r.index <= hi
    ensures StrictlySorted(entries) && r.Missing? ==>
              (forall k :: lo <= k < r.index ==> entries[k].0 < c) &&
              (forall k :: r.index <= k < hi ==> c < entries[k].0)
    decreases hi - lo
  {
    if lo == hi then Missing(lo)
    else
      var mid := (lo + hi) / 2;
      if entries[mid].0 < c then Search(entries, c, mid + 1, hi)
      else if c < entries[mid].0 then Search(entries, c, lo, mid)
      else Found(mid)
  }

  /**
   * Binary search over the whole list. On a strictly sorted list it finds the
   * key exactly when the key is present, and otherwise reports the one
   * position that separates the smaller keys from the greater ones.
   */
  function BinarySearch<V>(entries: seq<(char, V)>, c: char): (r: Probe)
    ensures r.Found? ==> r.index < |entries| && entries[r.index].0 == c
    ensures r.Missing? ==> r.index <= |entries|
    ensures StrictlySorted(entries) ==> (r.Found? <==> HasKey(entries, c))
    ensures StrictlySorted(entries) && r.Missing? ==>
              (forall k :: 0 <= k < r.index ==> entries[k].0 < c) &&
              (forall k :: r.index <= k < |entries| ==> c < entries[k].0)
  {
    Search(entries, c, 0, |entries|)
  }

  /** Inserting `(c, x)` between the keys below `c` and the keys above `c` keeps strict order. */
  lemma InsertKeepsOrder<V>(entries: seq<(char, V)>, i: nat, c: char, x: V)
    requires StrictlySorted(entries)
    requires i <= |entries|
    requires forall k :: 0 <= k < i ==> entries[k].0 < c
    requires forall k :: i <= k < |entries| ==> c < entries[k].0
    ensures StrictlySorted(entries[..i] + [(c, x)] + entries[i..])
  {
    var e' := entries[..i] + [(c, x)] + entries[i..];
    forall a, b | 0 <= a < b < |e'| ensures e'[a].0 < e'[b].0 {
      if b < i {
      } else if b == i {
      } else if a < i {
        assert e'[b] == entries[b - 1];
      } else if a == i {
        assert e'[b] == entries[b - 1];
      } else {
        assert e'[a] == entries[a - 1] && e'[b] == entries[b - 1];
      }
    }
  }

  /** Inserts `e` before the first entry whose key is not smaller. */
  function InsertByKey<V>(e: (char, V), s: seq<(char, V)>): (r: seq<(char, V)>)
    ensures multiset(r) == multiset(s) + multiset{e}
  {
    if s == [] then [e]
    else if e.0 <= s[0].0 then [e] + s
    else
      assert s == [s[0]] + s[1..];
      [s[0]] + InsertByKey(e, s[1..])
  }

  /** Inserting a new key into a strictly sorted list keeps it strictly sorted. */
  lemma {:induction false} InsertByKeyOrdered<V>(e: (char, V), s: seq<(char, V)>)
    requires StrictlySorted(s)
    requires !HasKey(s, e.0)
    ensures StrictlySorted(InsertByKey(e, s))
  {
    if s != [] && e.0 > s[0].0 {
      assert !HasKey(s[1..], e.0) by {
        forall k | 0 <= k < |s[1..]| ensures s[1..][k].0 != e.0 {
          assert s[1..][k] == s[k + 1];
        }
      }
      InsertByKeyOrdered(e, s[1..]);
      InsertedAbove(e, s);
      ConsOrdered(s[0], InsertByKey(e, s[1..]));
    }
  }

  /** Inserting a larger key behind the head of a sorted list puts only larger keys behind it. */
  lemma InsertedAbove<V>(e: (char, V), s: seq<(char, V)>)
    requires StrictlySorted(s) && s != [] && e.0 > s[0].0
    ensures forall x :: x in InsertByKey(e, s[1..]) ==> s[0].0 < x.0
  {
    var rest := InsertByKey(e, s[1..]);
    forall x | x in rest ensures s[0].0 < x.0 {
      assert x in multiset(rest);
      if x != e {
        assert x in multiset(s[1..]);
        var k :| 0 <= k < |s[1..]| && s[1..][k] == x;
        assert s[k + 1] == x;
      }
    }
  }

  /** A key below every key of a strictly sorted list can go in front of it. */
  lemma ConsOrdered<V>(h: (char, V), rest: seq<(char, V)>)
    requires StrictlySorted(rest) && forall x :: x in rest ==> h.0 < x.0
    ensures StrictlySorted([h] + rest)
  {
    var r := [h] + rest;
    forall a, b | 0 <= a < b < |r| ensures r[a].0 < r[b].0 {
      if a == 0 { assert r[b] == rest[b - 1] && r[b] in rest; }
      else { assert r[a] == rest[a - 1] && r[b] == rest[b - 1]; }
    }
  }

  /**
   * A sort by key (insertion sort). It is a permutation of its input, and
   * strictly sorted when the input's keys are distinct.
   */
  function SortByKey<V>(s: seq<(char, V)>): (r: seq<(char, V)>)
    ensures multiset(r) == multiset(s)
    ensures DistinctKeys(s) ==> StrictlySorted(r)
  {
    if s == [] then []
    else
      var rest := SortByKey(s[1..]);
      assert s == [s[0]] + s[1..];
      assert DistinctKeys(s) ==> StrictlySorted(InsertByKey(s[0], rest)) by {
        if DistinctKeys(s) {
          forall a, b | 0 <= a < b < |s[1..]| ensures s[1..][a].0 != s[1..][b].0 {
            assert s[1..][a] == s[a + 1] && s[1..][b] == s[b + 1];
          }
          forall k | 0 <= k < |rest| ensures rest[k].0 != s[0].0 {
            assert rest[k] in multiset(s[1..]);
            var j :| 0 <= j < |s[1..]| && s[1..][j] == rest[k];
            assert s[j + 1] == rest[k];
          }
          InsertByKeyOrdered(s[0], rest);
        }
      }
      InsertByKey(s[0], rest)
  }

  /** In a sort of entries with distinct keys, binary search finds each entry's key, and that entry. */
  lemma SortedFinds<V>(s: seq<(char, V)>, c: char, v: V)
    requires DistinctKeys(s) && (c, v) in s
    ensures BinarySearch(SortByKey(s), c).Found?
    ensures SortByKey(s)[BinarySearch(SortByKey(s), c).index].1 == v
  {
    var t := SortByKey(s);
    assert (c, v) in multiset(t);
    var m :| 0 <= m < |t| && t[m] == (c, v);
    assert HasKey(t, c);
    AssocAt(t, BinarySearch(t, c).index);
    AssocAt(t, m);
  }

  /** A key no entry has is not found in the sort either. */
  lemma SortedMisses<V>(s: seq<(char, V)>, c: char)
    requires DistinctKeys(s) && forall k :: 0 <= k < |s| ==> s[k].0 != c
    ensures BinarySearch(SortByKey(s), c).Missing?
  {
    var t := SortByKey(s);
    forall i | 0 <= i < |t| ensures t[i].0 != c {
      assert t[i] in multiset(s);
    }
  }

  /** Every entry of the sort comes from the input. */
  lemma SortedMember<V>(s: seq<(char, V)>, i: nat)
    requires i < |SortByKey(s)|
    ensures SortByKey(s)[i] in s
  {
    assert SortByKey(s)[i] in multiset(SortByKey(s));
  }
}
