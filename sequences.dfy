/**
 * The list helpers the data loader builds on: `Array.prototype.filter`,
 * lodash's `uniqBy`, `uniq`, `difference` and `xor`, and `flatMap`. Each is a
 * function over `seq`, and its meaning is proved once, here, against an
 * independent description (subsequence, membership, multiplicity, first
 * occurrence).
 */
module Sequences {

  datatype Option<T> = None | Some(value: T)

  /** No element occurs twice in `s`. */
  predicate NoDup<T(==)>(s: seq<T>) {
    forall i, j :: 0 <= i < j < |s| ==> s[i] != s[j]
  }

  /** `a` is `b` with some elements deleted: an order-preserving subsequence. */
  ghost predicate IsSubseq<T>(a: seq<T>, b: seq<T>)
    decreases |b|
  {
    if |a| == 0 then true
    else if |b| == 0 then false
    else (a[|a| - 1] == b[|b| - 1] && IsSubseq(a[..|a| - 1], b[..|b| - 1]))
         || IsSubseq(a, b[..|b| - 1])
  }

  lemma SubseqExtend<T>(a: seq<T>, b: seq<T>, x: T)
    requires IsSubseq(a, b)
    ensures IsSubseq(a + [x], b + [x])
    ensures IsSubseq(a, b + [x])
  {
    assert (a + [x])[..|a|] == a;
    assert (b + [x])[..|b|] == b;
  }

  lemma {:induction false} SubseqOfSelf<T>(s: seq<T>)
    ensures IsSubseq(s, s)
  {
    if s != [] {
      SubseqOfSelf(s[..|s| - 1]);
    }
  }

  /** A subsequence keeps no element the original does not have. */
  lemma {:induction false} SubseqMembers<T>(a: seq<T>, b: seq<T>)
    requires IsSubseq(a, b)
    ensures forall x :: x in a ==> x in b
    decreases |b|
  {
    if |a| != 0 && |b| != 0 {
      var a', b' := a[..|a| - 1], b[..|b| - 1];
      assert a == a' + [a[|a| - 1]];
      assert b == b' + [b[|b| - 1]];
      if a[|a| - 1] == b[|b| - 1] && IsSubseq(a', b') {
        SubseqMembers(a', b');
      } else {
        SubseqMembers(a, b');
      }
    }
  }

  /** `Array.prototype.filter`: the elements of `s` that satisfy `f`, in order. */
  function Filter<T>(s: seq<T>, f: T -> bool): seq<T>
  {
    if s == [] then []
    else Filter(s[..|s| - 1], f) + (if f(s[|s| - 1]) then [s[|s| - 1]] else [])
  }

  lemma FilterLast<T>(s: seq<T>, f: T -> bool)
    requires s != []
    ensures Filter(s, f) == Filter(s[..|s| - 1], f) + (if f(s[|s| - 1]) then [s[|s| - 1]] else [])
  {
  }

  /** Filter keeps an order-preserving subsequence. */
  lemma {:induction false} FilterSubseq<T>(s: seq<T>, f: T -> bool)
    ensures IsSubseq(Filter(s, f), s)
  {
    if s != [] {
      var s', x := s[..|s| - 1], s[|s| - 1];
      assert s == s' + [x];
      FilterSubseq(s', f);
      SubseqExtend(Filter(s', f), s', x);
      FilterLast(s, f);
      if !f(x) {
        assert Filter(s, f) == Filter(s', f);
      }
    }
  }

  /** Filter keeps every occurrence of the elements that satisfy the predicate, and nothing else. */
  lemma {:induction false} FilterCount<T>(s: seq<T>, f: T -> bool)
    ensures forall x :: multiset(Filter(s, f))[x] == if f(x) then multiset(s)[x] else 0
  {
    if s != [] {
      var s', x := s[..|s| - 1], s[|s| - 1];
      assert s == s' + [x];
      FilterCount(s', f);
      FilterLast(s, f);
      assert multiset(s) == multiset(s') + multiset{x};
    }
  }

  /** Filter keeps exactly the elements that satisfy the predicate. */
  lemma {:induction false} FilterMembers<T>(s: seq<T>, f: T -> bool)
    ensures forall x :: x in Filter(s, f) <==> x in s && f(x)
  {
    if s != [] {
      var s', y := s[..|s| - 1], s[|s| - 1];
      assert s == s' + [y];
      FilterMembers(s', f);
      FilterLast(s, f);
    }
  }

  /**
   * Filter keeps exactly the elements that satisfy the predicate, every
   * occurrence of them, in their original order.
   */
  lemma FilterFacts<T>(s: seq<T>, f: T -> bool)
    ensures IsSubseq(Filter(s, f), s)
    ensures forall x :: x in Filter(s, f) <==> x in s && f(x)
    ensures forall x :: multiset(Filter(s, f))[x] == if f(x) then multiset(s)[x] else 0
  {
    FilterSubseq(s, f);
    FilterCount(s, f);
    FilterMembers(s, f);
  }

  /** A predicate every element satisfies filters nothing out. */
  lemma {:induction false} FilterAll<T>(s: seq<T>, f: T -> bool)
    requires forall x :: x in s ==> f(x)
    ensures Filter(s, f) == s
  {
    if s != [] {
      var s' := s[..|s| - 1];
      assert s == s' + [s[|s| - 1]];
      FilterAll(s', f);
    }
  }

  /** A stronger predicate keeps a subsequence of what a weaker one keeps. */
  lemma {:induction false} FilterMonotone<T>(s: seq<T>, f: T -> bool, g: T -> bool)
    requires forall x :: f(x) ==> g(x)
    ensures IsSubseq(Filter(s, f), Filter(s, g))
  {
    if s != [] {
      var s', x := s[..|s| - 1], s[|s| - 1];
      FilterMonotone(s', f, g);
      SubseqExtend(Filter(s', f), Filter(s', g), x);
      FilterLast(s, f);
      FilterLast(s, g);
      if !f(x) {
        assert Filter(s, f) == Filter(s', f);
      }
      if !g(x) {
        assert Filter(s, g) == Filter(s', g);
      }
    }
  }

  /** Splitting by a predicate and its negation loses and invents nothing. */
  lemma {:induction false} FilterSplit<T>(s: seq<T>, f: T -> bool, g: T -> bool)
    requires forall x :: g(x) == !f(x)
    ensures multiset(Filter(s, f)) + multiset(Filter(s, g)) == multiset(s)
  {
    if s != [] {
      var s', x := s[..|s| - 1], s[|s| - 1];
      assert s == s' + [x];
      FilterSplit(s', f, g);
    }
  }

  /** The set of keys of the elements of `s`. */
  ghost function KeysOf<T, K>(s: seq<T>, key: T -> K): set<K> {
    set i | 0 <= i < |s| :: key(s[i])
  }

  /** The first element of `s` whose key is `k`, if there is one. */
  ghost function FirstWithKey<T, K>(s: seq<T>, key: T -> K, k: K): Option<T> {
    if s == [] then None
    else if key(s[0]) == k then Some(s[0])
    else FirstWithKey(s[1..], key, k)
  }

  lemma {:induction false} FirstWithKeyAppend<T, K>(s: seq<T>, x: T, key: T -> K, k: K)
    ensures FirstWithKey(s + [x], key, k) ==
      if k in KeysOf(s, key) then FirstWithKey(s, key, k)
      else if key(x) == k then Some(x) else None
  {
    if s == [] {
      assert [x][1..] == [];
    } else {
      assert (s + [x])[1..] == s[1..] + [x];
      FirstWithKeyAppend(s[1..], x, key, k);
      if key(s[0]) != k {
        assert k in KeysOf(s, key) <==> k in KeysOf(s[1..], key) by {
          if k in KeysOf(s, key) {
            var i :| 0 <= i < |s| && key(s[i]) == k;
            assert key(s[1..][i - 1]) == k;
          }
          if k in KeysOf(s[1..], key) {
            var i :| 0 <= i < |s[1..]| && key(s[1..][i]) == k;
            assert key(s[i + 1]) == k;
          }
        }
      } else {
        assert key(s[0]) in KeysOf(s, key);
      }
    }
  }

  lemma KeysOfAppend<T, K>(s: seq<T>, x: T, key: T -> K)
    ensures KeysOf(s + [x], key) == KeysOf(s, key) + {key(x)}
  {
    var t := s + [x];
    forall k | k in KeysOf(t, key) ensures k in KeysOf(s, key) + {key(x)} {
      var i :| 0 <= i < |t| && key(t[i]) == k;
      if i < |s| { assert key(s[i]) == k; }
    }
    forall k | k in KeysOf(s, key) ensures k in KeysOf(t, key) {
      var i :| 0 <= i < |s| && key(s[i]) == k;
      assert key(t[i]) == k;
    }
    assert key(t[|s|]) == key(x);
  }

  /** The position of the first element of `s` whose key is `k`, or `|s|` when there is none. */
  ghost function FirstKeyIndex<T, K>(s: seq<T>, key: T -> K, k: K): (n: nat)
    ensures n <= |s|
    ensures n < |s| ==> key(s[n]) == k
    ensures forall i :: 0 <= i < n ==> key(s[i]) != k
    decreases |s|
  {
    if s == [] then 0
    else if key(s[0]) == k then 0
    else 1 + FirstKeyIndex(s[1..], key, k)
  }

  /** The position of the first occurrence of `x` in `s`, or `|s|` when there is none. */
  ghost function FirstIndex<T>(s: seq<T>, x: T): (n: nat)
    ensures n <= |s|
    ensures n < |s| ==> s[n] == x
    ensures forall i :: 0 <= i < n ==> s[i] != x
    decreases |s|
  {
    if s == [] then 0
    else if s[0] == x then 0
    else 1 + FirstIndex(s[1..], x)
  }

  /** Appending an element moves no first position; a key first seen in it is found at its position. */
  lemma FirstKeyIndexAppend<T, K>(s: seq<T>, y: T, key: T -> K, k: K)
    ensures var n := FirstKeyIndex(s, key, k);
      FirstKeyIndex(s + [y], key, k) == if n < |s| then n else if key(y) == k then |s| else |s| + 1
  {
    var n := FirstKeyIndex(s, key, k);
    var t := s + [y];
    assert forall i :: 0 <= i < |s| ==> t[i] == s[i];
    if n < |s| {
      assert key(t[n]) == k;
    } else if key(y) == k {
      assert key(t[|s|]) == k;
    }
  }

  /** A key occurs in `s` exactly when its first position lies inside `s`. */
  lemma FirstKeyIndexFound<T, K>(s: seq<T>, key: T -> K, k: K)
    ensures FirstKeyIndex(s, key, k) < |s| <==> k in KeysOf(s, key)
  {
    var n := FirstKeyIndex(s, key, k);
    if n < |s| {
      assert key(s[n]) == k;
    }
    if k in KeysOf(s, key) {
      var i :| 0 <= i < |s| && key(s[i]) == k;
      assert n <= i;
    }
  }

  /** For the identity key, the first position of a key is the first occurrence of the element. */
  lemma {:induction false} FirstKeyIndexIdentity<T>(s: seq<T>, key: T -> T, x: T)
    requires forall y :: key(y) == y
    ensures FirstKeyIndex(s, key, x) == FirstIndex(s, x)
    decreases |s|
  {
    if s != [] {
      FirstKeyIndexIdentity(s[1..], key, x);
    }
  }

  /** lodash `uniqBy`: the first element for each key, in input order. */
  function UniqBy<T, K(==)>(s: seq<T>, key: T -> K): seq<T>
  {
    if s == [] then []
    else
      var kept, x := UniqBy(s[..|s| - 1], key), s[|s| - 1];
      if exists i :: 0 <= i < |kept| && key(kept[i]) == key(x) then kept else kept + [x]
  }

  lemma UniqByLast<T, K>(s: seq<T>, key: T -> K)
    requires s != []
    ensures var kept, x := UniqBy(s[..|s| - 1], key), s[|s| - 1];
      UniqBy(s, key) == if key(x) in KeysOf(kept, key) then kept else kept + [x]
  {
    var kept, x := UniqBy(s[..|s| - 1], key), s[|s| - 1];
    if key(x) in KeysOf(kept, key) {
      var i :| 0 <= i < |kept| && key(kept[i]) == key(x);
    } else {
      forall i | 0 <= i < |kept| ensures key(kept[i]) != key(x) {
        assert key(kept[i]) in KeysOf(kept, key);
      }
    }
  }

  /** uniqBy returns an order-preserving subsequence of its input. */
  lemma {:induction false} UniqBySubseq<T, K>(s: seq<T>, key: T -> K)
    ensures IsSubseq(UniqBy(s, key), s)
  {
    if s != [] {
      var s', x := s[..|s| - 1], s[|s| - 1];
      assert s == s' + [x];
      UniqBySubseq(s', key);
      SubseqExtend(UniqBy(s', key), s', x);
    }
  }

  /** uniqBy covers every key of its input and no other. */
  lemma {:induction false} UniqByKeys<T, K>(s: seq<T>, key: T -> K)
    ensures KeysOf(UniqBy(s, key), key) == KeysOf(s, key)
  {
    if s != [] {
      var s', x := s[..|s| - 1], s[|s| - 1];
      assert s == s' + [x];
      UniqByKeys(s', key);
      UniqByLast(s, key);
      KeysOfAppend(s', x, key);
      KeysOfAppend(UniqBy(s', key), x, key);
    }
  }

  /** No two elements uniqBy returns share a key. */
  lemma {:induction false} UniqByDistinct<T, K>(s: seq<T>, key: T -> K)
    ensures forall i, j :: 0 <= i < j < |UniqBy(s, key)| ==> key(UniqBy(s, key)[i]) != key(UniqBy(s, key)[j])
  {
    if s != [] {
      var s', x := s[..|s| - 1], s[|s| - 1];
      var kept := UniqBy(s', key);
      UniqByDistinct(s', key);
      UniqByLast(s, key);
      if key(x) !in KeysOf(kept, key) {
        forall i | 0 <= i < |kept| ensures key(kept[i]) != key(x) {
          assert key(kept[i]) in KeysOf(kept, key);
        }
      }
    }
  }

  /** Each element uniqBy keeps is the first input element with its key. */
  lemma {:induction false} UniqByFirst<T, K>(s: seq<T>, key: T -> K)
    ensures forall x :: x in UniqBy(s, key) ==> FirstWithKey(s, key, key(x)) == Some(x)
  {
    if s != [] {
      var s', x := s[..|s| - 1], s[|s| - 1];
      assert s == s' + [x];
      var kept := UniqBy(s', key);
      UniqByFirst(s', key);
      UniqByLast(s, key);
      UniqByKeys(s', key);
      forall y | y in UniqBy(s, key) ensures FirstWithKey(s, key, key(y)) == Some(y) {
        FirstWithKeyAppend(s', x, key, key(y));
        if y in kept {
          var i :| 0 <= i < |kept| && kept[i] == y;
          assert key(kept[i]) in KeysOf(kept, key);
        }
      }
    }
  }

  /** An input whose keys are already distinct comes back unchanged. */
  lemma {:induction false} UniqByUnchanged<T, K>(s: seq<T>, key: T -> K)
    requires forall i, j :: 0 <= i < j < |s| ==> key(s[i]) != key(s[j])
    ensures UniqBy(s, key) == s
  {
    if s != [] {
      var s', x := s[..|s| - 1], s[|s| - 1];
      assert s == s' + [x];
      UniqByUnchanged(s', key);
      UniqByLast(s, key);
      UniqByKeys(s', key);
      assert key(x) !in KeysOf(s', key) by {
        forall i | 0 <= i < |s'| ensures key(s'[i]) != key(x) {
          assert s'[i] == s[i];
        }
      }
    }
  }

  /** Appending an element leaves the first position of every key already present where it was. */
  lemma FirstKeyIndexKept<T, K>(s: seq<T>, x: T, kept: seq<T>, key: T -> K)
    requires KeysOf(kept, key) == KeysOf(s, key)
    ensures forall i :: 0 <= i < |kept| ==>
      FirstKeyIndex(s + [x], key, key(kept[i])) == FirstKeyIndex(s, key, key(kept[i])) < |s|
  {
    forall i | 0 <= i < |kept|
      ensures FirstKeyIndex(s + [x], key, key(kept[i])) == FirstKeyIndex(s, key, key(kept[i])) < |s|
    {
      assert key(kept[i]) in KeysOf(kept, key);
      FirstKeyIndexFound(s, key, key(kept[i]));
      FirstKeyIndexAppend(s, x, key, key(kept[i]));
    }
  }

  /** uniqBy lists the keys in the order in which they first appear in the input. */
  lemma {:induction false} UniqByOrder<T, K>(s: seq<T>, key: T -> K)
    ensures var r := UniqBy(s, key);
      forall i, j :: 0 <= i < j < |r| ==> FirstKeyIndex(s, key, key(r[i])) < FirstKeyIndex(s, key, key(r[j]))
  {
    if s != [] {
      var s', x := s[..|s| - 1], s[|s| - 1];
      assert s == s' + [x];
      var kept := UniqBy(s', key);
      UniqByOrder(s', key);
      UniqByLast(s, key);
      UniqByKeys(s', key);
      FirstKeyIndexKept(s', x, kept, key);
      if key(x) !in KeysOf(kept, key) {
        FirstKeyIndexFound(s', key, key(x));
        FirstKeyIndexAppend(s', x, key, key(x));
        var r := kept + [x];
        forall i, j | 0 <= i < j < |r|
          ensures FirstKeyIndex(s, key, key(r[i])) < FirstKeyIndex(s, key, key(r[j]))
        {
          assert r[i] == kept[i];
        }
      }
    }
  }

  /**
   * uniqBy returns an order-preserving subsequence with pairwise distinct
   * keys, covering every key of the input, each key represented by the first
   * input element carrying it, listed in the order the keys first appear; an
   * input whose keys are already distinct comes back unchanged.
   */
  lemma UniqByFacts<T, K>(s: seq<T>, key: T -> K)
    ensures IsSubseq(UniqBy(s, key), s)
    ensures forall i, j :: 0 <= i < j < |UniqBy(s, key)| ==> key(UniqBy(s, key)[i]) != key(UniqBy(s, key)[j])
    ensures KeysOf(UniqBy(s, key), key) == KeysOf(s, key)
    ensures forall x :: x in UniqBy(s, key) ==> FirstWithKey(s, key, key(x)) == Some(x)
    ensures (forall i, j :: 0 <= i < j < |s| ==> key(s[i]) != key(s[j])) ==> UniqBy(s, key) == s
    ensures var r := UniqBy(s, key);
      forall i, j :: 0 <= i < j < |r| ==> FirstKeyIndex(s, key, key(r[i])) < FirstKeyIndex(s, key, key(r[j]))
  {
    UniqBySubseq(s, key);
    UniqByOrder(s, key);
    UniqByDistinct(s, key);
    UniqByKeys(s, key);
    UniqByFirst(s, key);
    if forall i, j :: 0 <= i < j < |s| ==> key(s[i]) != key(s[j]) {
      UniqByUnchanged(s, key);
    }
  }

  /** lodash `uniq`: the first occurrence of each element, in input order. */
  function Uniq<T(==,!new)>(s: seq<T>): (r: seq<T>)
    ensures NoDup(r)
    ensures forall x :: x in r <==> x in s
    ensures IsSubseq(r, s)
    ensures NoDup(s) ==> r == s
    ensures forall i, j :: 0 <= i < j < |r| ==> FirstIndex(s, r[i]) < FirstIndex(s, r[j])
  {
    var same := (x: T) => x;
    UniqByFacts(s, same);
    var r := UniqBy(s, same);
    assert forall x :: FirstKeyIndex(s, same, x) == FirstIndex(s, x) by {
      forall x ensures FirstKeyIndex(s, same, x) == FirstIndex(s, x) {
        FirstKeyIndexIdentity(s, same, x);
      }
    }
    assert forall x :: x in r <==> x in KeysOf(r, same) by {
      forall x | x in r ensures x in KeysOf(r, same) {
        var i :| 0 <= i < |r| && r[i] == x;
        assert same(r[i]) == x;
      }
    }
    assert forall x :: x in s <==> x in KeysOf(s, same) by {
      forall x | x in s ensures x in KeysOf(s, same) {
        var i :| 0 <= i < |s| && s[i] == x;
        assert same(s[i]) == x;
      }
    }
    r
  }

  /** Filtering a duplicate-free sequence leaves it duplicate-free. */
  lemma {:induction false} FilterNoDup<T>(s: seq<T>, f: T -> bool)
    ensures NoDup(s) ==> NoDup(Filter(s, f))
  {
    if s != [] && NoDup(s) {
      var s', x := s[..|s| - 1], s[|s| - 1];
      assert s == s' + [x];
      assert NoDup(s');
      FilterNoDup(s', f);
      FilterFacts(s', f);
      FilterLast(s, f);
      assert x !in s';
    }
  }

  /** lodash `difference`: the elements of `a` that are not in `b`, in order. */
  function Difference<T(==,!new)>(a: seq<T>, b: seq<T>): (r: seq<T>)
    ensures IsSubseq(r, a)
    ensures forall x :: x in r <==> x in a && x !in b
    ensures forall x :: multiset(r)[x] == if x in b then 0 else multiset(a)[x]
    ensures NoDup(a) ==> NoDup(r)
    ensures (forall x :: x in a ==> x !in b) ==> r == a
  {
    var outside := (x: T) => x !in b;
    FilterFacts(a, outside);
    FilterNoDup(a, outside);
    if forall x :: x in a ==> x !in b then
      FilterAll(a, outside);
      Filter(a, outside)
    else
      Filter(a, outside)
  }

  /** In a duplicate-free sequence every element occurs at most once. */
  lemma {:induction false} NoDupCount<T>(s: seq<T>, x: T)
    requires NoDup(s)
    ensures multiset(s)[x] <= 1
  {
    if s != [] {
      var s' := s[..|s| - 1];
      assert s == s' + [s[|s| - 1]];
      NoDupCount(s', x);
      if s[|s| - 1] == x {
        assert x !in s';
      }
    }
  }

  /** A rearrangement of a duplicate-free sequence is duplicate-free. */
  lemma PermutationNoDup<T>(a: seq<T>, b: seq<T>)
    requires NoDup(a) && multiset(a) == multiset(b)
    ensures NoDup(b)
  {
    forall i, j | 0 <= i < j < |b| ensures b[i] != b[j] {
      if b[i] == b[j] {
        assert multiset(b)[b[i]] >= 2 by {
          assert b == b[..i] + [b[i]] + b[i + 1..j] + [b[j]] + b[j + 1..];
        }
        NoDupCount(a, b[i]);
      }
    }
  }

  lemma DifferenceAppend<T(!new)>(a: seq<T>, y: T, b: seq<T>)
    ensures Difference(a + [y], b) == Difference(a, b) + (if y in b then [] else [y])
  {
    assert (a + [y])[..|a|] == a;
  }

  lemma DifferenceOfOne<T(!new)>(x: T, s: seq<T>)
    ensures Difference([x], s) == if x in s then [] else [x]
  {
    DifferenceAppend([], x, s);
    assert [] + [x] == [x];
  }

  /** `xor(s, [x])` with `x` absent from `s`. */
  lemma XorAbsent<T(!new)>(s: seq<T>, x: T)
    requires x !in s
    ensures Uniq(Difference(s, [x]) + Difference([x], s)) == Uniq(s) + [x]
  {
    DifferenceOfOne(x, s);
    DifferenceOutside(s, x);
    UniqAppendFresh(s, x);
  }

  /** Removing an absent element changes nothing. */
  lemma DifferenceOutside<T(!new)>(s: seq<T>, x: T)
    requires x !in s
    ensures Difference(s, [x]) == s
  {
    assert forall y :: y in s ==> y !in [x];
  }

  /** `xor(s, [x])` with `x` present in `s`. */
  lemma XorPresent<T(!new)>(s: seq<T>, x: T)
    requires x in s
    ensures Uniq(Difference(s, [x]) + Difference([x], s)) == Uniq(Difference(s, [x]))
    ensures IsSubseq(Uniq(Difference(s, [x]) + Difference([x], s)), s)
  {
    var d := Difference(s, [x]);
    DifferenceOfOne(x, s);
    assert d + [] == d;
    SubseqTrans(Uniq(d), d, s);
  }

  /**
   * lodash `xor(s, [x])`: the symmetric difference, computed as
   * `uniq(difference(s, [x]) ++ difference([x], s))`. The membership of `x`
   * flips and nothing else changes membership; the result never repeats an
   * element. An absent `x` is appended after the (deduplicated) input; a
   * present one is removed, every copy of it, leaving the rest in order.
   */
  function Xor<T(==,!new)>(s: seq<T>, x: T): (r: seq<T>)
    ensures NoDup(r)
    ensures x in r <==> x !in s
    ensures forall y :: y != x ==> (y in r <==> y in s)
    ensures x !in s ==> r == Uniq(s) + [x]
    ensures x in s ==> IsSubseq(r, s)
    ensures NoDup(s) && x in s ==> r == Difference(s, [x])
  {
    if x in s then XorPresent(s, x); Uniq(Difference(s, [x]) + Difference([x], s))
    else XorAbsent(s, x); Uniq(Difference(s, [x]) + Difference([x], s))
  }

  /** Two duplicate-free sequences with no element in common concatenate to a duplicate-free one. */
  lemma NoDupAppend<T>(a: seq<T>, b: seq<T>)
    requires NoDup(a) && NoDup(b)
    requires forall x :: x in a ==> x !in b
    ensures NoDup(a + b)
  {
    forall i, j | 0 <= i < j < |a + b| ensures (a + b)[i] != (a + b)[j] {
      if j >= |a| && i < |a| {
        assert (a + b)[i] in a;
        assert (a + b)[j] in b;
      }
    }
  }

  /** Appending an element not yet present extends `uniq`'s result by it. */
  lemma UniqAppendFresh<T(!new)>(s: seq<T>, x: T)
    requires x !in s
    ensures Uniq(s + [x]) == Uniq(s) + [x]
  {
    var same := (y: T) => y;
    assert (s + [x])[..|s|] == s;
    var kept := UniqBy(s, same);
    UniqByFacts(s, same);
    SubseqMembers(kept, s);
    assert forall i :: 0 <= i < |kept| ==> same(kept[i]) != same(x) by {
      forall i | 0 <= i < |kept| ensures same(kept[i]) != same(x) {
        assert kept[i] in s;
      }
    }
  }

  lemma {:induction false} SubseqTrans<T>(a: seq<T>, b: seq<T>, c: seq<T>)
    requires IsSubseq(a, b) && IsSubseq(b, c)
    ensures IsSubseq(a, c)
    decreases |c|
  {
    if |a| != 0 && |c| != 0 {
      var a', b', c' := a[..|a| - 1], b[..|b| - 1], c[..|c| - 1];
      if b[|b| - 1] == c[|c| - 1] && IsSubseq(b', c') {
        if a[|a| - 1] == b[|b| - 1] && IsSubseq(a', b') {
          SubseqTrans(a', b', c');
        } else {
          SubseqTrans(a, b', c');
        }
      } else {
        SubseqTrans(a, b, c');
      }
    }
  }
}
