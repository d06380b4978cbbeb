/** A stable insertion sort by an integer key, the model of
    `Array.prototype.sort` with a comparator `key(a) - key(b)`: the result is
    ordered by key and items with equal keys keep their input order. */
module StableSort {

  predicate Sorted<T>(key: T -> int, s: seq<T>) {
    forall i, j :: 0 <= i < j < |s| ==> key(s[i]) <= key(s[j])
  }

  /** The items of key `k`, in their order in `s`. */
  function WithKey<T>(key: T -> int, s: seq<T>, k: int): seq<T> {
    if s == [] then []
    else WithKey(key, s[..|s| - 1], k) + (if key(s[|s| - 1]) == k then [s[|s| - 1]] else [])
  }

  /** Insertion of `x` after every element with a key no larger; `x` comes
      last in input order, so equal keys keep their input order. */
  function Insert<T>(key: T -> int, s: seq<T>, x: T): (r: seq<T>)
    ensures |r| == |s| + 1
    ensures multiset(r) == multiset(s) + multiset{x}
    decreases |s|
  {
    if s == [] || key(s[|s| - 1]) <= key(x) then s + [x]
    else
      assert s == s[..|s| - 1] + [s[|s| - 1]];
      Insert(key, s[..|s| - 1], x) + [s[|s| - 1]]
  }

  lemma {:induction false} InsertSorted<T>(key: T -> int, s: seq<T>, x: T)
    requires Sorted(key, s)
    ensures Sorted(key, Insert(key, s, x))
    decreases |s|
  {
    if s != [] && key(s[|s| - 1]) > key(x) {
      var front := s[..|s| - 1];
      var y := s[|s| - 1];
      InsertSorted(key, front, x);
      assert forall z | z in front :: key(z) <= key(y);
      InsertBounded(key, front, x, key(y));
      SnocSorted(key, Insert(key, front, x), y);
    }
  }

  /** Inserting keeps every key below a common bound. */
  lemma InsertBounded<T>(key: T -> int, s: seq<T>, x: T, b: int)
    requires forall z | z in s :: key(z) <= b
    requires key(x) <= b
    ensures forall z | z in Insert(key, s, x) :: key(z) <= b
  {
    forall z | z in Insert(key, s, x)
      ensures key(z) <= b
    {
      assert z in multiset(Insert(key, s, x));
      if z != x {
        assert z in multiset(s);
      }
    }
  }

  lemma SnocSorted<T>(key: T -> int, m: seq<T>, y: T)
    requires Sorted(key, m)
    requires forall z | z in m :: key(z) <= key(y)
    ensures Sorted(key, m + [y])
  {
    forall i, j | 0 <= i < j < |m| + 1
      ensures key((m + [y])[i]) <= key((m + [y])[j])
    {
      if j == |m| {
        assert m[i] in m;
      }
    }
  }

  function SortBy<T>(key: T -> int, s: seq<T>): (r: seq<T>)
    ensures |r| == |s|
    ensures multiset(r) == multiset(s)
    ensures Sorted(key, r)
  {
    if s == [] then []
    else
      assert s == s[..|s| - 1] + [s[|s| - 1]];
      InsertSorted(key, SortBy(key, s[..|s| - 1]), s[|s| - 1]);
      Insert(key, SortBy(key, s[..|s| - 1]), s[|s| - 1])
  }

  lemma {:induction false} WithKeySnoc<T>(key: T -> int, s: seq<T>, x: T, k: int)
    ensures WithKey(key, s + [x], k) == WithKey(key, s, k) + (if key(x) == k then [x] else [])
  {
    assert (s + [x])[..|s + [x]| - 1] == s;
  }

  /** Insertion into a sorted sequence leaves every key's items in place
      and puts `x` after the items of its own key. */
  lemma {:induction false} WithKeyInsert<T>(key: T -> int, s: seq<T>, x: T, k: int)
    requires Sorted(key, s)
    ensures WithKey(key, Insert(key, s, x), k) == WithKey(key, s, k) + (if key(x) == k then [x] else [])
    decreases |s|
  {
    if s == [] || key(s[|s| - 1]) <= key(x) {
      WithKeySnoc(key, s, x, k);
    } else {
      var front := s[..|s| - 1];
      var y := s[|s| - 1];
      assert s == front + [y];
      WithKeyInsert(key, front, x, k);
      WithKeySnoc(key, Insert(key, front, x), y, k);
      WithKeySnoc(key, front, y, k);
    }
  }

  /** Stability: the items of any one key come out in their input order. */
  lemma {:induction false} SortByStable<T>(key: T -> int, s: seq<T>, k: int)
    ensures WithKey(key, SortBy(key, s), k) == WithKey(key, s, k)
  {
    if s != [] {
      var front := s[..|s| - 1];
      var x := s[|s| - 1];
      assert s == front + [x];
      SortByStable(key, front, k);
      WithKeyInsert(key, SortBy(key, front), x, k);
      WithKeySnoc(key, front, x, k);
    }
  }

  /** Nothing has key `k` when every key is at most `m < k`. */
  lemma {:induction false} WithKeyBelow<T>(key: T -> int, s: seq<T>, m: int, k: int)
    requires m < k
    requires forall i :: 0 <= i < |s| ==> key(s[i]) <= m
    ensures WithKey(key, s, k) == []
  {
    if s != [] {
      WithKeyBelow(key, s[..|s| - 1], m, k);
    }
  }

  /** A sorted sequence is determined by its items of each key. */
  lemma {:induction false} SortedUnique<T>(key: T -> int, a: seq<T>, b: seq<T>)
    requires Sorted(key, a) && Sorted(key, b)
    requires forall k :: WithKey(key, a, k) == WithKey(key, b, k)
    ensures a == b
    decreases |a| + |b|
  {
    if a != [] && b != [] {
      var x := a[|a| - 1];
      var y := b[|b| - 1];
      var fa := a[..|a| - 1];
      var fb := b[..|b| - 1];
      assert a == fa + [x] && b == fb + [y];
      if key(x) < key(y) {
        WithKeySnoc(key, fa, x, key(y));
        WithKeySnoc(key, fb, y, key(y));
        WithKeyBelow(key, fa, key(x), key(y));
        assert false;
      } else if key(y) < key(x) {
        WithKeySnoc(key, fa, x, key(x));
        WithKeySnoc(key, fb, y, key(x));
        WithKeyBelow(key, fb, key(y), key(x));
        assert false;
      }
      WithKeySnoc(key, fa, x, key(x));
      WithKeySnoc(key, fb, y, key(x));
      var wa := WithKey(key, fa, key(x)) + [x];
      var wb := WithKey(key, fb, key(x)) + [y];
      assert wa == WithKey(key, a, key(x)) == WithKey(key, b, key(x)) == wb;
      assert wa[|wa| - 1] == x && wb[|wb| - 1] == y;
      assert x == y;
      forall k: int
        ensures WithKey(key, fa, k) == WithKey(key, fb, k)
      {
        WithKeySnoc(key, fa, x, k);
        WithKeySnoc(key, fb, y, k);
        assert WithKey(key, a, k) == WithKey(key, b, k);
        CancelLast(WithKey(key, fa, k), WithKey(key, fb, k), if key(x) == k then [x] else []);
      }
      SortedUnique(key, fa, fb);
    } else if a != [] {
      var x := a[|a| - 1];
      assert a == a[..|a| - 1] + [x];
      WithKeySnoc(key, a[..|a| - 1], x, key(x));
      assert false;
    } else if b != [] {
      var y := b[|b| - 1];
      assert b == b[..|b| - 1] + [y];
      WithKeySnoc(key, b[..|b| - 1], y, key(y));
      assert false;
    }
  }

  lemma CancelLast<T>(p: seq<T>, q: seq<T>, t: seq<T>)
    requires p + t == q + t
    ensures p == q
  {
    assert p == (p + t)[..|p|];
    assert q == (q + t)[..|q|];
  }

  /** The sort is characterised by its contract: it is the one sorted
      sequence holding the input's items of every key in input order. */
  lemma SortByCharacterised<T>(key: T -> int, s: seq<T>, r: seq<T>)
    requires Sorted(key, r)
    requires forall k :: WithKey(key, r, k) == WithKey(key, s, k)
    ensures r == SortBy(key, s)
  {
    forall k
      ensures WithKey(key, r, k) == WithKey(key, SortBy(key, s), k)
    {
      SortByStable(key, s, k);
    }
    SortedUnique(key, r, SortBy(key, s));
  }
}
