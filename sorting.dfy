/** A stable sort by an integer key. It stands for the two orderings the handlers
    ask for: `Array.prototype.sort` with a numeric comparator (which is stable) and
    SQL's `ORDER BY` on one integer column. */
module Sorting {

  /** Keys never decrease from left to right. */
  ghost predicate SortedBy<T>(s: seq<T>, key: T -> int) {
    forall i, j :: 0 <= i < j < |s| ==> key(s[i]) <= key(s[j])
  }

  /** Inserts `x` into a sorted sequence after every element whose key is not
      larger than its own, so that equal keys keep their arrival order. */
  function Insert<T>(s: seq<T>, x: T, key: T -> int): (r: seq<T>)
    requires SortedBy(s, key)
    ensures SortedBy(r, key)
    ensures multiset(r) == multiset(s) + multiset{x}
    ensures |r| == |s| + 1
    ensures r[0] == x || (s != [] && r[0] == s[0])
  {
    if s == [] then [x]
    else if key(x) < key(s[0]) then [x] + s
    else
      var rest := Insert(s[1..], x, key);
      assert s == [s[0]] + s[1..];
      [s[0]] + rest
  }

  /** Insertion sort, taking the elements in order so that the sort is stable. */
  function SortBy<T>(s: seq<T>, key: T -> int): (r: seq<T>)
    ensures SortedBy(r, key)
    ensures multiset(r) == multiset(s)
    ensures |r| == |s|
  {
    if s == [] then []
    else
      assert s == s[..|s| - 1] + [s[|s| - 1]];
      Insert(SortBy(s[..|s| - 1], key), s[|s| - 1], key)
  }

  /** The elements whose key is `v`, in their order in `s`. */
  function WithKey<T>(s: seq<T>, key: T -> int, v: int): seq<T> {
    if s == [] then [] else (if key(s[0]) == v then [s[0]] else []) + WithKey(s[1..], key, v)
  }

  /** A single element is picked exactly when it has the key. */
  lemma WithKeyOne<T>(x: T, key: T -> int, v: int)
    ensures WithKey([x], key, v) == if key(x) == v then [x] else []
  {
    assert [x][1..] == [];
  }

  /** Picking the elements with one key distributes over concatenation. */
  lemma {:induction false} WithKeyAppend<T>(a: seq<T>, b: seq<T>, key: T -> int, v: int)
    ensures WithKey(a + b, key, v) == WithKey(a, key, v) + WithKey(b, key, v)
  {
    if a == [] {
      assert a + b == b;
    } else {
      var head := if key(a[0]) == v then [a[0]] else [];
      assert WithKey(a + b, key, v) == head + WithKey(a[1..] + b, key, v) by {
        assert (a + b)[0] == a[0];
        assert (a + b)[1..] == a[1..] + b;
      }
      WithKeyAppend(a[1..], b, key, v);
    }
  }

  /** No element of a sorted sequence whose first key exceeds `v` has key `v`. */
  lemma {:induction false} WithKeyAbove<T>(s: seq<T>, key: T -> int, v: int)
    requires SortedBy(s, key) && s != [] && v < key(s[0])
    ensures WithKey(s, key, v) == []
  {
    if |s| > 1 {
      assert key(s[0]) <= key(s[1]);
      WithKeyAbove(s[1..], key, v);
    }
  }

  /** `Insert` puts the new element after every element with the same key. */
  lemma {:induction false} InsertStable<T>(s: seq<T>, x: T, key: T -> int, v: int)
    requires SortedBy(s, key)
    ensures WithKey(Insert(s, x, key), key, v) == WithKey(s, key, v) + WithKey([x], key, v)
  {
    WithKeyOne(x, key, v);
    if s == [] {
      assert Insert(s, x, key) == [x];
      assert WithKey(s, key, v) == [];
    } else if key(x) < key(s[0]) {
      assert Insert(s, x, key) == [x] + s;
      WithKeyAppend([x], s, key, v);
      if key(x) == v {
        WithKeyAbove(s, key, v);
      }
    } else {
      var rest := Insert(s[1..], x, key);
      assert Insert(s, x, key) == [s[0]] + rest;
      InsertStable(s[1..], x, key, v);
      WithKeyAppend([s[0]], rest, key, v);
      assert s == [s[0]] + s[1..];
      WithKeyAppend([s[0]], s[1..], key, v);
    }
  }

  /** The sort is stable: the elements with any one key come out in their input order. */
  lemma {:induction false} SortByStable<T>(s: seq<T>, key: T -> int, v: int)
    ensures WithKey(SortBy(s, key), key, v) == WithKey(s, key, v)
  {
    if s != [] {
      var init, last := s[..|s| - 1], s[|s| - 1];
      var sorted := SortBy(init, key);
      assert SortBy(s, key) == Insert(sorted, last, key);
      SortByStable(init, key, v);
      InsertStable(sorted, last, key, v);
      assert s == init + [last];
      StableStep(s, init, last, sorted, Insert(sorted, last, key), key, v);
    }
  }

  /** One step of the sort keeps the order of each key: `sorted` keeps the order of
      `init` and `inserted` adds `last` after its own key's elements. */
  lemma StableStep<T>(s: seq<T>, init: seq<T>, last: T, sorted: seq<T>, inserted: seq<T>, key: T -> int, v: int)
    requires s == init + [last]
    requires WithKey(sorted, key, v) == WithKey(init, key, v)
    requires WithKey(inserted, key, v) == WithKey(sorted, key, v) + WithKey([last], key, v)
    ensures WithKey(inserted, key, v) == WithKey(s, key, v)
  {
    WithKeyAppend(init, [last], key, v);
  }

  /** The first `n` elements, or all of them if there are fewer (`slice(0, n)`). */
  function Take<T>(s: seq<T>, n: nat): (r: seq<T>)
    ensures |r| <= n && |r| <= |s|
    ensures r == s[..|r|]
    ensures |r| == if |s| < n then |s| else n
  {
    if |s| <= n then s else s[..n]
  }

  // Sequence facts stated once for any element type: proved at an element type of
  // their own they avoid comparing the elements themselves.

  /** Dropping the last element of `s + [x]` gives `s`. */
  lemma InitOfSnoc<T>(s: seq<T>, x: T)
    ensures (s + [x])[..|s|] == s
  {
  }

  /** A prefix one longer is the prefix and the next element. */
  lemma TakeOneMore<T>(s: seq<T>, n: nat)
    requires n < |s|
    ensures s[..n + 1] == s[..n] + [s[n]]
  {
  }

  /** Being a prefix is transitive. */
  lemma PrefixTransitive<T>(p: seq<T>, q: seq<T>, s: seq<T>)
    requires |p| <= |q| <= |s| && q[..|p|] == p && s[..|q|] == q
    ensures s[..|p|] == p
  {
    TakeOfTake(s, |p|, |q|);
  }

  /** The whole of a sequence is its longest prefix. */
  lemma TakeAll<T>(s: seq<T>)
    ensures s[..|s|] == s
  {
  }

  /** A prefix of a prefix is a prefix. */
  lemma TakeOfTake<T>(s: seq<T>, m: nat, n: nat)
    requires m <= n <= |s|
    ensures s[..n][..m] == s[..m]
  {
  }

  /** A sequence's multiset is that of all but its last element, plus the last. */
  lemma MultisetSnoc<T>(s: seq<T>)
    requires s != []
    ensures multiset(s) == multiset(s[..|s| - 1]) + multiset{s[|s| - 1]}
  {
    assert s == s[..|s| - 1] + [s[|s| - 1]];
  }
}
