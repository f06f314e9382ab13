/**
 * lodash `sortBy` with a single string-valued iteratee: a stable sort that
 * orders elements by their keys under lexicographic order, keeping elements
 * with equal keys in their input order.
 */
module Sorting {
  import opened Strings
  import opened Sequences

  /** Keys never decrease from left to right. */
  ghost predicate SortedBy<T>(s: seq<T>, key: T -> string) {
    forall i, j :: 0 <= i < j < |s| ==> LexLe(key(s[i]), key(s[j]))
  }

  /** The elements of `s` whose key is `k`, in their order in `s`. */
  ghost function WithKey<T, K>(s: seq<T>, key: T -> K, k: K): seq<T> {
    if s == [] then []
    else WithKey(s[..|s| - 1], key, k) + (if key(s[|s| - 1]) == k then [s[|s| - 1]] else [])
  }

  /** Places `x` after every element of the sorted `s` whose key is at most its own. */
  function Insert<T>(s: seq<T>, x: T, key: T -> string): seq<T> {
    if s == [] then [x]
    else if LexLe(key(s[|s| - 1]), key(x)) then s + [x]
    else Insert(s[..|s| - 1], x, key) + [s[|s| - 1]]
  }

  /** lodash `sortBy(s, key)`: inserts the elements one after another, in input order. */
  function SortBy<T>(s: seq<T>, key: T -> string): seq<T> {
    if s == [] then []
    else Insert(SortBy(s[..|s| - 1], key), s[|s| - 1], key)
  }

  lemma {:induction false} InsertPermutes<T>(s: seq<T>, x: T, key: T -> string)
    ensures multiset(Insert(s, x, key)) == multiset(s) + multiset{x}
  {
    if s != [] && !LexLe(key(s[|s| - 1]), key(x)) {
      var s' := s[..|s| - 1];
      assert s == s' + [s[|s| - 1]];
      InsertPermutes(s', x, key);
    }
  }

  lemma {:induction false} InsertSorted<T>(s: seq<T>, x: T, key: T -> string)
    requires SortedBy(s, key)
    ensures SortedBy(Insert(s, x, key), key)
  {
    if s == [] {
    } else {
      var s', last := s[..|s| - 1], s[|s| - 1];
      if LexLe(key(last), key(x)) {
        forall i | 0 <= i < |s| ensures LexLe(key(s[i]), key(x)) {
          if i < |s| - 1 {
            LexLeTrans(key(s[i]), key(last), key(x));
          }
        }
      } else {
        LexLeTotal(key(last), key(x));
        var ins := Insert(s', x, key);
        InsertSorted(s', x, key);
        InsertPermutes(s', x, key);
        forall i | 0 <= i < |ins| ensures LexLe(key(ins[i]), key(last)) {
          assert ins[i] in multiset(s') + multiset{x};
          if ins[i] != x {
            assert ins[i] in s';
            var j :| 0 <= j < |s'| && s'[j] == ins[i];
            assert s[j] == ins[i];
          }
        }
      }
    }
  }

  /** Inserting `x` adds it after every element of equal key, and moves nothing else. */
  lemma {:induction false} InsertStable<T>(s: seq<T>, x: T, key: T -> string, k: string)
    ensures WithKey(Insert(s, x, key), key, k) == WithKey(s, key, k) + (if key(x) == k then [x] else [])
  {
    if s == [] {
      assert WithKey([x], key, k) == WithKey([], key, k) + (if key(x) == k then [x] else []) by {
        assert [x][..0] == [];
      }
    } else {
      var s', last := s[..|s| - 1], s[|s| - 1];
      assert s == s' + [last];
      if LexLe(key(last), key(x)) {
        assert (s + [x])[..|s|] == s;
      } else {
        LexLeRefl(key(x));
        var ins := Insert(s', x, key);
        InsertStable(s', x, key, k);
        assert (ins + [last])[..|ins|] == ins;
      }
    }
  }

  /** sortBy returns a permutation of its input. */
  lemma {:induction false} SortByPermutes<T>(s: seq<T>, key: T -> string)
    ensures multiset(SortBy(s, key)) == multiset(s)
  {
    if s != [] {
      var s', x := s[..|s| - 1], s[|s| - 1];
      assert s == s' + [x];
      SortByPermutes(s', key);
      InsertPermutes(SortBy(s', key), x, key);
    }
  }

  /** sortBy orders its result by key. */
  lemma {:induction false} SortBySorted<T>(s: seq<T>, key: T -> string)
    ensures SortedBy(SortBy(s, key), key)
  {
    if s != [] {
      var s', x := s[..|s| - 1], s[|s| - 1];
      SortBySorted(s', key);
      InsertSorted(SortBy(s', key), x, key);
    }
  }

  /** sortBy keeps the elements of key `k` in their input order. */
  lemma {:induction false} SortByStable<T>(s: seq<T>, key: T -> string, k: string)
    ensures WithKey(SortBy(s, key), key, k) == WithKey(s, key, k)
  {
    if s != [] {
      var s', x := s[..|s| - 1], s[|s| - 1];
      SortByStable(s', key, k);
      InsertStable(SortBy(s', key), x, key, k);
    }
  }

  /**
   * sortBy returns a permutation of its input, ordered by key, in which the
   * elements of each key keep their input order.
   */
  lemma SortByFacts<T>(s: seq<T>, key: T -> string)
    ensures multiset(SortBy(s, key)) == multiset(s)
    ensures SortedBy(SortBy(s, key), key)
    ensures forall k :: WithKey(SortBy(s, key), key, k) == WithKey(s, key, k)
  {
    SortByPermutes(s, key);
    SortBySorted(s, key);
    forall k ensures WithKey(SortBy(s, key), key, k) == WithKey(s, key, k) {
      SortByStable(s, key, k);
    }
  }

  lemma WithKeyAppend<T, K>(a: seq<T>, b: seq<T>, key: T -> K, k: K)
    ensures WithKey(a + b, key, k) == WithKey(a, key, k) + WithKey(b, key, k)
    decreases |b|
  {
    if b == [] {
      assert a + b == a;
    } else {
      var b', y := b[..|b| - 1], b[|b| - 1];
      assert (a + b)[..|a + b| - 1] == a + b';
      assert (a + b)[|a + b| - 1] == y;
      WithKeyAppend(a, b', key, k);
      var tail := if key(y) == k then [y] else [];
      assert WithKey(a + b, key, k) == WithKey(a + b', key, k) + tail;
      assert WithKey(b, key, k) == WithKey(b', key, k) + tail;
      assert WithKey(a, key, k) + (WithKey(b', key, k) + tail) == (WithKey(a, key, k) + WithKey(b', key, k)) + tail;
    }
  }

  /** No element carries the key `k`: nothing is selected. */
  lemma WithKeyNone<T, K>(s: seq<T>, key: T -> K, k: K)
    requires forall x :: x in s ==> key(x) != k
    ensures WithKey(s, key, k) == []
    decreases |s|
  {
    if s != [] {
      WithKeyNone(s[..|s| - 1], key, k);
    }
  }

  /** Two key functions that agree on `s` about which elements carry their keys select the same elements. */
  lemma WithKeyAgree<T, K1, K2>(s: seq<T>, key1: T -> K1, k1: K1, key2: T -> K2, k2: K2)
    requires forall x :: x in s ==> (key1(x) == k1 <==> key2(x) == k2)
    ensures WithKey(s, key1, k1) == WithKey(s, key2, k2)
    decreases |s|
  {
    if s != [] {
      WithKeyAgree(s[..|s| - 1], key1, k1, key2, k2);
    }
  }

  /** Filtering by a predicate every element of key `k` satisfies keeps those elements, in order. */
  lemma WithKeyFilter<T, K>(s: seq<T>, f: T -> bool, key: T -> K, k: K)
    requires forall x :: key(x) == k ==> f(x)
    ensures WithKey(Filter(s, f), key, k) == WithKey(s, key, k)
    decreases |s|
  {
    if s != [] {
      var s', x := s[..|s| - 1], s[|s| - 1];
      WithKeyFilter(s', f, key, k);
      FilterLast(s, f);
      assert WithKey(s, key, k) == WithKey(s', key, k) + (if key(x) == k then [x] else []);
      if f(x) {
        var fs := Filter(s', f) + [x];
        assert fs[..|fs| - 1] == Filter(s', f) && fs[|fs| - 1] == x;
        assert WithKey(Filter(s, f), key, k) == WithKey(Filter(s', f), key, k) + (if key(x) == k then [x] else []);
      } else {
        assert Filter(s, f) == Filter(s', f) + [] == Filter(s', f);
        assert WithKey(s, key, k) == WithKey(s', key, k) + [] == WithKey(s', key, k);
      }
    }
  }
}
