/**
 * Python's `list.sort(key=...)` and `sorted(..., key=..., reverse=...)`:
 * a stable sort by a key under a strict total order `lt` on keys
 * (`reverse=True` is the same stable sort under the reversed order).
 * Modelled as insertion sort; `StableSortUnique` shows that any stable
 * sort returns exactly the same sequence, so the algorithm does not matter.
 */
module StableSort {

  ghost predicate StrictTotalOrder<K(!new)>(lt: (K, K) -> bool)
  {
    && (forall a :: !lt(a, a))
    && (forall a, b, c :: lt(a, b) && lt(b, c) ==> lt(a, c))
    && (forall a, b :: a == b || lt(a, b) || lt(b, a))
  }

  lemma LessAsymmetric<K(!new)>(lt: (K, K) -> bool, a: K, b: K)
    requires StrictTotalOrder(lt)
    requires lt(a, b)
    ensures !lt(b, a)
  {
  }

  /** "Not greater" is transitive under a strict total order. */
  lemma NotLessTransitive<K(!new)>(lt: (K, K) -> bool, a: K, b: K, c: K)
    requires StrictTotalOrder(lt)
    requires !lt(b, a) && !lt(c, b)
    ensures !lt(c, a)
  {
    assert a == b || lt(a, b) || lt(b, a);
    assert b == c || lt(b, c) || lt(c, b);
  }

  /** No element is followed by one with a strictly smaller key. */
  ghost predicate SortedBy<T, K>(s: seq<T>, key: T -> K, lt: (K, K) -> bool)
  {
    forall i, j :: 0 <= i < j < |s| ==> !lt(key(s[j]), key(s[i]))
  }

  /** The elements of `s` whose key is `k`, in their order in `s`. */
  function WithKey<T, K(==)>(s: seq<T>, key: T -> K, k: K): seq<T>
  {
    if s == [] then []
    else (if key(s[0]) == k then [s[0]] else []) + WithKey(s[1..], key, k)
  }

  /** Puts `x` before the first element whose key is not strictly smaller. */
  function Insert<T, K>(x: T, s: seq<T>, key: T -> K, lt: (K, K) -> bool): (r: seq<T>)
    ensures |r| == |s| + 1
  {
    if s == [] then [x]
    else if lt(key(s[0]), key(x)) then
      var r := [s[0]] + Insert(x, s[1..], key, lt);
      assert s == [s[0]] + s[1..];
      r
    else [x] + s
  }

  function SortBy<T, K>(s: seq<T>, key: T -> K, lt: (K, K) -> bool): (r: seq<T>)
    ensures |r| == |s|
  {
    if s == [] then []
    else
      var r := Insert(s[0], SortBy(s[1..], key, lt), key, lt);
      assert s == [s[0]] + s[1..];
      r
  }

  /** Inserting adds exactly `x`. */
  lemma {:induction false} InsertPermutes<T, K>(x: T, s: seq<T>, key: T -> K, lt: (K, K) -> bool)
    ensures multiset(Insert(x, s, key, lt)) == multiset(s) + multiset{x}
    decreases s
  {
    if s != [] && lt(key(s[0]), key(x)) {
      InsertPermutes(x, s[1..], key, lt);
      assert s == [s[0]] + s[1..];
    }
  }

  /** Sorting is a permutation. */
  lemma {:induction false} SortByPermutes<T, K>(s: seq<T>, key: T -> K, lt: (K, K) -> bool)
    ensures multiset(SortBy(s, key, lt)) == multiset(s)
    decreases s
  {
    if s != [] {
      SortByPermutes(s[1..], key, lt);
      InsertPermutes(s[0], SortBy(s[1..], key, lt), key, lt);
      assert s == [s[0]] + s[1..];
    }
  }

  lemma {:induction false} InsertSorted<T, K(!new)>(x: T, s: seq<T>, key: T -> K, lt: (K, K) -> bool)
    requires StrictTotalOrder(lt)
    requires SortedBy(s, key, lt)
    ensures SortedBy(Insert(x, s, key, lt), key, lt)
  {
    if s != [] {
      if lt(key(s[0]), key(x)) {
        var rest := Insert(x, s[1..], key, lt);
        InsertPermutes(x, s[1..], key, lt);
        assert SortedBy(s[1..], key, lt) by {
          forall i, j | 0 <= i < j < |s[1..]| ensures !lt(key(s[1..][j]), key(s[1..][i])) {
            assert s[1..][j] == s[j + 1] && s[1..][i] == s[i + 1];
          }
        }
        InsertSorted(x, s[1..], key, lt);
        var r := [s[0]] + rest;
        forall i, j | 0 <= i < j < |r| ensures !lt(key(r[j]), key(r[i])) {
          if i == 0 {
            var y := r[j];
            assert y in multiset(rest);
            if y == x {
              LessAsymmetric(lt, key(s[0]), key(x));
            } else {
              assert y in multiset(s[1..]);
              var m :| 0 <= m < |s[1..]| && s[1..][m] == y;
              assert s[m + 1] == y;
            }
          } else {
            assert r[i] == rest[i - 1] && r[j] == rest[j - 1];
          }
        }
      } else {
        var r := [x] + s;
        forall i, j | 0 <= i < j < |r| ensures !lt(key(r[j]), key(r[i])) {
          if i == 0 {
            var y := r[j];
            assert y == s[j - 1];
            if j > 1 {
              NotLessTransitive(lt, key(x), key(s[0]), key(y));
            }
          } else {
            assert r[i] == s[i - 1] && r[j] == s[j - 1];
          }
        }
      }
    }
  }

  lemma {:induction false} SortBySorted<T, K(!new)>(s: seq<T>, key: T -> K, lt: (K, K) -> bool)
    requires StrictTotalOrder(lt)
    ensures SortedBy(SortBy(s, key, lt), key, lt)
  {
    if s != [] {
      SortBySorted(s[1..], key, lt);
      InsertSorted(s[0], SortBy(s[1..], key, lt), key, lt);
    }
  }

  lemma WithKeyCons<T, K>(y: T, t: seq<T>, key: T -> K, k: K)
    ensures WithKey([y] + t, key, k) == (if key(y) == k then [y] else []) + WithKey(t, key, k)
  {
    assert ([y] + t)[0] == y && ([y] + t)[1..] == t;
  }

  lemma {:induction false} InsertWithKey<T, K(!new)>(x: T, s: seq<T>, key: T -> K, lt: (K, K) -> bool, k: K)
    requires forall a :: !lt(a, a)
    ensures WithKey(Insert(x, s, key, lt), key, k)
         == (if key(x) == k then [x] else []) + WithKey(s, key, k)
    decreases s, 1
  {
    if s == [] {
      WithKeyCons(x, [], key, k);
    } else if lt(key(s[0]), key(x)) {
      InsertWithKeyPast(x, s, key, lt, k);
    } else {
      WithKeyCons(x, s, key, k);
    }
  }

  /** The case of `InsertWithKey` where `x` moves past the head of `s`. */
  lemma {:induction false} InsertWithKeyPast<T, K(!new)>(x: T, s: seq<T>, key: T -> K, lt: (K, K) -> bool, k: K)
    requires forall a :: !lt(a, a)
    requires s != [] && lt(key(s[0]), key(x))
    ensures WithKey(Insert(x, s, key, lt), key, k)
         == (if key(x) == k then [x] else []) + WithKey(s, key, k)
    decreases s, 0
  {
    var rest := Insert(x, s[1..], key, lt);
    assert Insert(x, s, key, lt) == [s[0]] + rest;
    assert [s[0]] + s[1..] == s;
    var mine: seq<T> := if key(x) == k then [x] else [];
    var head: seq<T> := if key(s[0]) == k then [s[0]] else [];
    var tail := WithKey(s[1..], key, k);
    InsertWithKey(x, s[1..], key, lt, k);
    WithKeyCons(s[0], rest, key, k);
    WithKeyCons(s[0], s[1..], key, k);
    if key(x) == k {
      assert key(s[0]) != k by { assert !lt(key(x), key(x)); }
      assert head == [];
      assert head + (mine + tail) == mine + tail;
      assert head + tail == tail;
    } else {
      assert mine == [];
      assert mine + tail == tail;
      assert mine + (head + tail) == head + tail;
    }
  }

  /** Stability: for every key, the elements carrying it keep their relative order. */
  lemma {:induction false} SortByStable<T, K(!new)>(s: seq<T>, key: T -> K, lt: (K, K) -> bool, k: K)
    requires forall a :: !lt(a, a)
    ensures WithKey(SortBy(s, key, lt), key, k) == WithKey(s, key, k)
  {
    if s != [] {
      assert WithKey(s, key, k) == (if key(s[0]) == k then [s[0]] else []) + WithKey(s[1..], key, k);
      SortByStable(s[1..], key, lt, k);
      InsertWithKey(s[0], SortBy(s[1..], key, lt), key, lt, k);
    }
  }

  lemma {:induction false} WithKeyHasKey<T, K>(s: seq<T>, key: T -> K, k: K)
    requires WithKey(s, key, k) != []
    ensures exists j :: 0 <= j < |s| && key(s[j]) == k
  {
    if key(s[0]) != k {
      WithKeyHasKey(s[1..], key, k);
      var j :| 0 <= j < |s[1..]| && key(s[1..][j]) == k;
      assert key(s[j + 1]) == k;
    }
  }

  lemma WithKeyOwnHead<T, K>(s: seq<T>, key: T -> K)
    requires s != []
    ensures WithKey(s, key, key(s[0])) != []
  {
  }

  /** Two sorted sequences that agree on every key's elements, in order, are equal. */
  lemma {:induction false} SortedStableUnique<T, K(!new)>(a: seq<T>, b: seq<T>, key: T -> K, lt: (K, K) -> bool)
    requires StrictTotalOrder(lt)
    requires SortedBy(a, key, lt) && SortedBy(b, key, lt)
    requires forall k :: WithKey(a, key, k) == WithKey(b, key, k)
    ensures a == b
    decreases |a|
  {
    if a == [] && b != [] {
      WithKeyOwnHead(b, key);
      assert false;
    } else if a != [] && b == [] {
      WithKeyOwnHead(a, key);
      assert false;
    } else if a != [] {
      SameHead(a, b, key, lt);
      forall k ensures WithKey(a[1..], key, k) == WithKey(b[1..], key, k) {
        SameTailWithKey(a, b, key, k);
      }
      SortedTail(a, key, lt);
      SortedTail(b, key, lt);
      SortedStableUnique(a[1..], b[1..], key, lt);
      assert a == [a[0]] + a[1..] && b == [b[0]] + b[1..];
    }
  }

  /** Two sorted sequences with the same elements per key start with the same element. */
  lemma SameHead<T, K(!new)>(a: seq<T>, b: seq<T>, key: T -> K, lt: (K, K) -> bool)
    requires StrictTotalOrder(lt)
    requires a != [] && b != []
    requires SortedBy(a, key, lt) && SortedBy(b, key, lt)
    requires forall k :: WithKey(a, key, k) == WithKey(b, key, k)
    ensures a[0] == b[0]
  {
    var ka, kb := key(a[0]), key(b[0]);
    assert WithKey(a, key, ka) == [a[0]] + WithKey(a[1..], key, ka);
    WithKeyHasKey(b, key, ka);
    var j :| 0 <= j < |b| && key(b[j]) == ka;
    assert !lt(ka, kb) by { if j > 0 { assert !lt(key(b[j]), key(b[0])); } }
    assert WithKey(b, key, kb) == [b[0]] + WithKey(b[1..], key, kb);
    WithKeyHasKey(a, key, kb);
    var i :| 0 <= i < |a| && key(a[i]) == kb;
    assert !lt(kb, ka) by { if i > 0 { assert !lt(key(a[i]), key(a[0])); } }
    assert ka == kb;
    assert WithKey(a, key, ka)[0] == a[0];
    assert WithKey(b, key, ka)[0] == b[0];
  }

  lemma SameTailWithKey<T, K>(a: seq<T>, b: seq<T>, key: T -> K, k: K)
    requires a != [] && b != [] && a[0] == b[0]
    requires WithKey(a, key, k) == WithKey(b, key, k)
    ensures WithKey(a[1..], key, k) == WithKey(b[1..], key, k)
  {
    WithKeyCons(a[0], a[1..], key, k);
    WithKeyCons(b[0], b[1..], key, k);
    assert [a[0]] + a[1..] == a && [b[0]] + b[1..] == b;
    var first := if key(a[0]) == k then [a[0]] else [];
    assert WithKey(a[1..], key, k) == (first + WithKey(a[1..], key, k))[|first|..];
    assert WithKey(b[1..], key, k) == (first + WithKey(b[1..], key, k))[|first|..];
  }

  lemma SortedTail<T, K>(a: seq<T>, key: T -> K, lt: (K, K) -> bool)
    requires a != [] && SortedBy(a, key, lt)
    ensures SortedBy(a[1..], key, lt)
  {
    forall i, j | 0 <= i < j < |a[1..]| ensures !lt(key(a[1..][j]), key(a[1..][i])) {
      assert a[1..][j] == a[j + 1] && a[1..][i] == a[i + 1];
    }
  }

  /**
   * Whatever algorithm sorts stably (Python's Timsort included) produces
   * `SortBy`: a sorted sequence keeping each key's elements in input order is it.
   */
  lemma StableSortUnique<T, K(!new)>(s: seq<T>, r: seq<T>, key: T -> K, lt: (K, K) -> bool)
    requires StrictTotalOrder(lt)
    requires SortedBy(r, key, lt)
    requires forall k :: WithKey(r, key, k) == WithKey(s, key, k)
    ensures r == SortBy(s, key, lt)
  {
    SortBySorted(s, key, lt);
    forall k ensures WithKey(r, key, k) == WithKey(SortBy(s, key, lt), key, k) {
      SortByStable(s, key, lt, k);
    }
    SortedStableUnique(r, SortBy(s, key, lt), key, lt);
  }
}
