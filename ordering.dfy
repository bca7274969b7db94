/**
 * Ordering a sequence by an integer key, as `Array.prototype.sort` does with
 * the comparator `(a, b) => key(a) - key(b)` (ascending) or
 * `(a, b) => key(b) - key(a)` (descending). Since ECMAScript 2019 that sort is
 * stable, so the result is the stable insertion sort defined here: sorted, a
 * permutation of the input, and with equal keys left in their input order.
 */
module Ordering {

  datatype Direction = Asc | Desc

  /**
   * The comparator allows a key `ka` before a key `kb`: `ka - kb <= 0` when
   * ascending, `kb - ka <= 0` when descending.
   */
  predicate InOrder(ka: int, kb: int, dir: Direction)
  {
    if dir == Asc then ka <= kb else kb <= ka
  }

  /** Keys never decrease (`Asc`) or never increase (`Desc`) along `s`. */
  ghost predicate Sorted<T>(s: seq<T>, key: T -> int, dir: Direction)
  {
    forall i, j :: 0 <= i < j < |s| ==> InOrder(key(s[i]), key(s[j]), dir)
  }

  /** The elements of `s` whose key is `k`, in their order in `s`. */
  function WithKey<T>(s: seq<T>, key: T -> int, k: int): (r: seq<T>)
    ensures |r| <= |s|
  {
    if s == [] then []
    else (if key(s[0]) == k then [s[0]] else []) + WithKey(s[1..], key, k)
  }

  /** Stable: for every key, the elements with that key appear in the same order in `r` as in `s`. */
  ghost predicate Stable<T>(s: seq<T>, r: seq<T>, key: T -> int)
  {
    forall k :: WithKey(r, key, k) == WithKey(s, key, k)
  }

  /** Put `x` before the first element the comparator does not put before it. */
  function Insert<T>(x: T, s: seq<T>, key: T -> int, dir: Direction): seq<T>
  {
    if s == [] || InOrder(key(x), key(s[0]), dir) then [x] + s
    else [s[0]] + Insert(x, s[1..], key, dir)
  }

  /** Inserting adds `x` and keeps every other element. */
  lemma {:induction false} InsertPermutes<T>(x: T, s: seq<T>, key: T -> int, dir: Direction)
    ensures multiset(Insert(x, s, key, dir)) == multiset(s) + multiset{x}
  {
    if !(s == [] || InOrder(key(x), key(s[0]), dir)) {
      InsertPermutes(x, s[1..], key, dir);
      assert s == [s[0]] + s[1..];
    }
  }

  /** An element placed before a sorted sequence it may precede gives a sorted sequence. */
  lemma ConsSorted<T>(h: T, rest: seq<T>, key: T -> int, dir: Direction)
    requires Sorted(rest, key, dir)
    requires forall y :: y in rest ==> InOrder(key(h), key(y), dir)
    ensures Sorted([h] + rest, key, dir)
  {
    var r := [h] + rest;
    forall i, j | 0 <= i < j < |r| ensures InOrder(key(r[i]), key(r[j]), dir) {
      if i == 0 {
        assert r[j] == rest[j - 1];
      } else {
        assert r[i] == rest[i - 1] && r[j] == rest[j - 1];
      }
    }
  }

  /** Inserting into a sorted sequence keeps it sorted. */
  lemma {:induction false} InsertSorted<T>(x: T, s: seq<T>, key: T -> int, dir: Direction)
    requires Sorted(s, key, dir)
    ensures Sorted(Insert(x, s, key, dir), key, dir)
  {
    if s == [] || InOrder(key(x), key(s[0]), dir) {
      ConsSorted(x, s, key, dir);
    } else {
      var rest := Insert(x, s[1..], key, dir);
      InsertSorted(x, s[1..], key, dir);
      InsertPermutes(x, s[1..], key, dir);
      forall y | y in rest ensures InOrder(key(s[0]), key(y), dir) {
        assert y in multiset(rest);
        if y != x {
          var j :| 0 <= j < |s[1..]| && s[1..][j] == y;
          assert s[j + 1] == y;
        }
      }
      ConsSorted(s[0], rest, key, dir);
    }
  }

  /** Selecting from `[x] + s` selects `x` when it has the key, then from `s`. */
  lemma WithKeyCons<T>(x: T, s: seq<T>, key: T -> int, k: int)
    ensures WithKey([x] + s, key, k) == (if key(x) == k then [x] else []) + WithKey(s, key, k)
  {
    assert ([x] + s)[0] == x && ([x] + s)[1..] == s;
  }

  /** Selecting from a concatenation selects from each part. */
  lemma {:induction false} WithKeyAppend<T>(a: seq<T>, b: seq<T>, key: T -> int, k: int)
    ensures WithKey(a + b, key, k) == WithKey(a, key, k) + WithKey(b, key, k)
  {
    if a != [] {
      WithKeyAppend(a[1..], b, key, k);
      assert (a + b)[0] == a[0] && (a + b)[1..] == a[1..] + b;
      var head := if key(a[0]) == k then [a[0]] else [];
      calc {
        WithKey(a + b, key, k);
        head + WithKey(a[1..] + b, key, k);
        head + (WithKey(a[1..], key, k) + WithKey(b, key, k));
        (head + WithKey(a[1..], key, k)) + WithKey(b, key, k);
        WithKey(a, key, k) + WithKey(b, key, k);
      }
    } else {
      assert a + b == b;
    }
  }

  /** Inserting `x` adds it to the elements with its key, in front of them. */
  lemma {:induction false} InsertStable<T>(x: T, s: seq<T>, key: T -> int, dir: Direction, k: int)
    ensures WithKey(Insert(x, s, key, dir), key, k)
         == (if key(x) == k then [x] else []) + WithKey(s, key, k)
  {
    if s == [] || InOrder(key(x), key(s[0]), dir) {
      WithKeyCons(x, s, key, k);
    } else {
      var rest := Insert(x, s[1..], key, dir);
      assert Insert(x, s, key, dir) == [s[0]] + rest;
      InsertStable(x, s[1..], key, dir, k);
      WithKeyCons(s[0], rest, key, k);
      WithKeyCons(s[0], s[1..], key, k);
      assert [s[0]] + s[1..] == s;
      assert key(s[0]) != key(x);
    }
  }

  /** The sort: insertion of each element, from the last to the first. */
  function SortBy<T>(s: seq<T>, key: T -> int, dir: Direction): (r: seq<T>)
    ensures multiset(r) == multiset(s)
    ensures Sorted(r, key, dir)
  {
    if s == [] then []
    else
      assert s == [s[0]] + s[1..];
      var rest := SortBy(s[1..], key, dir);
      InsertSorted(s[0], rest, key, dir);
      InsertPermutes(s[0], rest, key, dir);
      Insert(s[0], rest, key, dir)
  }

  /** The sort keeps elements with equal keys in their input order. */
  lemma {:induction false} SortByStable<T>(s: seq<T>, key: T -> int, dir: Direction)
    ensures Stable(s, SortBy(s, key, dir), key)
  {
    if s != [] {
      SortByStable(s[1..], key, dir);
      forall k ensures WithKey(SortBy(s, key, dir), key, k) == WithKey(s, key, k) {
        InsertStable(s[0], SortBy(s[1..], key, dir), key, dir, k);
      }
    }
  }

  /** If some element has key `k`, the selection for `k` is not empty. */
  lemma {:induction false} WithKeyFindsKey<T>(s: seq<T>, key: T -> int, k: int)
    requires WithKey(s, key, k) != []
    ensures exists j :: 0 <= j < |s| && key(s[j]) == k
  {
    if key(s[0]) != k {
      WithKeyFindsKey(s[1..], key, k);
      var j :| 0 <= j < |s[1..]| && key(s[1..][j]) == k;
      assert key(s[j + 1]) == k;
    }
  }

  /** A sequence is empty exactly when it selects nothing for every key. */
  lemma EmptyOnlyIfNoKeys<T>(s: seq<T>, key: T -> int)
    ensures s == [] <==> forall k :: WithKey(s, key, k) == []
  {
    if s != [] {
      WithKeyCons(s[0], s[1..], key, key(s[0]));
      assert s == [s[0]] + s[1..];
    }
  }

  /** Two sorted sequences that agree on every key's elements start with the same key. */
  lemma SameFirstKey<T>(a: seq<T>, b: seq<T>, key: T -> int, dir: Direction)
    requires a != [] && b != []
    requires Sorted(a, key, dir) && Sorted(b, key, dir)
    requires Stable(a, b, key)
    ensures key(a[0]) == key(b[0])
  {
    var k0, k1 := key(a[0]), key(b[0]);
    WithKeyCons(a[0], a[1..], key, k0);
    assert a == [a[0]] + a[1..];
    WithKeyFindsKey(b, key, k0);
    var j :| 0 <= j < |b| && key(b[j]) == k0;
    assert InOrder(k1, k0, dir) by {
      if j > 0 {
        assert InOrder(key(b[0]), key(b[j]), dir);
      }
    }
    WithKeyCons(b[0], b[1..], key, k1);
    assert b == [b[0]] + b[1..];
    WithKeyFindsKey(a, key, k1);
    var i :| 0 <= i < |a| && key(a[i]) == k1;
    assert InOrder(k0, k1, dir) by {
      if i > 0 {
        assert InOrder(key(a[0]), key(a[i]), dir);
      }
    }
  }

  /** Dropping the same first element from both sides keeps the per-key agreement. */
  lemma StableTails<T>(a: seq<T>, b: seq<T>, key: T -> int)
    requires a != [] && b != [] && a[0] == b[0]
    requires Stable(a, b, key)
    ensures Stable(a[1..], b[1..], key)
  {
    assert a == [a[0]] + a[1..] && b == [b[0]] + b[1..];
    forall k ensures WithKey(b[1..], key, k) == WithKey(a[1..], key, k) {
      WithKeyCons(a[0], a[1..], key, k);
      WithKeyCons(b[0], b[1..], key, k);
      var pa, pb := WithKey(a, key, k), WithKey(b, key, k);
      assert pa == pb;
      if key(a[0]) == k {
        assert WithKey(a[1..], key, k) == pa[1..];
        assert WithKey(b[1..], key, k) == pb[1..];
      } else {
        assert WithKey(a[1..], key, k) == pa;
        assert WithKey(b[1..], key, k) == pb;
      }
    }
  }

  /**
   * Two sequences, each sorted, that agree on the order of the elements of
   * every key are the same sequence.
   */
  lemma {:induction false} SortedStableUnique<T>(a: seq<T>, b: seq<T>, key: T -> int, dir: Direction)
    requires Sorted(a, key, dir) && Sorted(b, key, dir)
    requires Stable(a, b, key)
    ensures a == b
    decreases |a| + |b|
  {
    if a == [] || b == [] {
      EmptyOnlyIfNoKeys(a, key);
      EmptyOnlyIfNoKeys(b, key);
    } else {
      SameFirstKey(a, b, key, dir);
      var k0 := key(a[0]);
      WithKeyCons(a[0], a[1..], key, k0);
      WithKeyCons(b[0], b[1..], key, k0);
      assert a == [a[0]] + a[1..] && b == [b[0]] + b[1..];
      assert a[0] == WithKey(a, key, k0)[0] == WithKey(b, key, k0)[0] == b[0];
      StableTails(a, b, key);
      SortedStableUnique(a[1..], b[1..], key, dir);
    }
  }

  /**
   * Any sorted rearrangement of `s` that keeps equal keys in input order is
   * `SortBy(s)`: every stable sort with this comparator gives this result.
   */
  lemma SortByUnique<T>(s: seq<T>, r: seq<T>, key: T -> int, dir: Direction)
    requires Sorted(r, key, dir) && Stable(s, r, key)
    ensures r == SortBy(s, key, dir)
  {
    SortByStable(s, key, dir);
    SortedStableUnique(SortBy(s, key, dir), r, key, dir);
  }
}
