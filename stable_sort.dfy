/** Python's built-in `sorted(xs, key=f)` for a natural-number key: a stable sort.
    It is modelled by insertion sort, and the lemmas show that insertion sort yields
    the one and only sequence that is ordered by key, a permutation of the input, and
    keeps equal-key elements in their input order. */
module StableSort {

  /** Keys never decrease along `s`. */
  ghost predicate SortedBy<T>(s: seq<T>, key: T -> nat) {
    forall i, j :: 0 <= i < j < |s| ==> key(s[i]) <= key(s[j])
  }

  /** The elements of `s` whose key is `k`, in the order they occur in `s`. */
  function WithKey<T>(s: seq<T>, key: T -> nat, k: nat): (r: seq<T>)
    ensures |r| <= |s|
  {
    if s == [] then []
    else (if key(s[0]) == k then [s[0]] else []) + WithKey(s[1..], key, k)
  }

  /** `r` is what a stable sort of `s` by `key` returns. */
  ghost predicate IsStableSortOf<T>(r: seq<T>, s: seq<T>, key: T -> nat) {
    && SortedBy(r, key)
    && multiset(r) == multiset(s)
    && forall k :: WithKey(r, key, k) == WithKey(s, key, k)
  }

  /** Puts `x` in front of the first element of `s` whose key is not smaller. */
  function Insert<T>(x: T, s: seq<T>, key: T -> nat): (r: seq<T>)
    ensures multiset(r) == multiset(s) + multiset{x}
  {
    if s == [] || key(x) <= key(s[0]) then [x] + s
    else
      assert s == [s[0]] + s[1..];
      [s[0]] + Insert(x, s[1..], key)
  }

  lemma {:induction false} InsertSorted<T>(x: T, s: seq<T>, key: T -> nat)
    requires SortedBy(s, key)
    ensures SortedBy(Insert(x, s, key), key)
  {
    if s == [] || key(x) <= key(s[0]) {
    } else {
      var rest := Insert(x, s[1..], key);
      InsertSorted(x, s[1..], key);
      forall i | 0 <= i < |rest| ensures key(s[0]) <= key(rest[i]) {
        assert rest[i] in multiset(rest);
        if rest[i] != x {
          assert rest[i] in multiset(s[1..]);
          var j :| 0 <= j < |s[1..]| && s[1..][j] == rest[i];
          assert s[j + 1] == rest[i];
        }
      }
    }
  }

  /** `sorted(s, key=key)`. */
  function Sort<T>(s: seq<T>, key: T -> nat): (r: seq<T>)
    ensures multiset(r) == multiset(s)
    ensures SortedBy(r, key)
  {
    if s == [] then []
    else
      assert s == [s[0]] + s[1..];
      InsertSorted(s[0], Sort(s[1..], key), key);
      Insert(s[0], Sort(s[1..], key), key)
  }

  lemma WithKeyCons<T>(y: T, t: seq<T>, key: T -> nat, k: nat)
    ensures WithKey([y] + t, key, k) == (if key(y) == k then [y] else []) + WithKey(t, key, k)
  {
    assert ([y] + t)[0] == y && ([y] + t)[1..] == t;
  }

  /** Inserting `x` keeps it ahead of every element with the same key. */
  lemma {:induction false} InsertKeepsKeyOrder<T>(x: T, s: seq<T>, key: T -> nat, k: nat)
    ensures WithKey(Insert(x, s, key), key, k) == WithKey([x] + s, key, k)
  {
    if s == [] || key(x) <= key(s[0]) {
    } else {
      var rest := Insert(x, s[1..], key);
      var w := WithKey(s[1..], key, k);
      assert Insert(x, s, key) == [s[0]] + rest;
      assert s == [s[0]] + s[1..];
      InsertKeepsKeyOrder(x, s[1..], key, k);
      WithKeyCons(s[0], rest, key, k);
      WithKeyCons(x, s[1..], key, k);
      WithKeyCons(s[0], s[1..], key, k);
      WithKeyCons(x, s, key, k);
      calc {
        WithKey(Insert(x, s, key), key, k);
        (if key(s[0]) == k then [s[0]] else []) + WithKey(rest, key, k);
        (if key(s[0]) == k then [s[0]] else []) + ((if key(x) == k then [x] else []) + w);
        { KeptHeadsCommute(s[0], x, w, key, k); }
        (if key(x) == k then [x] else []) + ((if key(s[0]) == k then [s[0]] else []) + w);
        (if key(x) == k then [x] else []) + WithKey(s, key, k);
      }
    }
  }

  /** Of two elements with different keys at most one is kept, so their order does not matter. */
  lemma KeptHeadsCommute<T>(y: T, x: T, w: seq<T>, key: T -> nat, k: nat)
    requires key(y) != key(x)
    ensures (if key(y) == k then [y] else []) + ((if key(x) == k then [x] else []) + w)
         == (if key(x) == k then [x] else []) + ((if key(y) == k then [y] else []) + w)
  {
    if key(y) == k {
      assert [] + w == w;
    } else {
      assert [] + ([x] + w) == [x] + w;
    }
  }

  /** The sort is stable. */
  lemma {:induction false} SortKeepsKeyOrder<T>(s: seq<T>, key: T -> nat, k: nat)
    ensures WithKey(Sort(s, key), key, k) == WithKey(s, key, k)
  {
    if s != [] {
      var t := Sort(s[1..], key);
      assert Sort(s, key) == Insert(s[0], t, key);
      SortKeepsKeyOrder(s[1..], key, k);
      InsertKeepsKeyOrder(s[0], t, key, k);
      WithKeyCons(s[0], t, key, k);
      WithKeyCons(s[0], s[1..], key, k);
      assert [s[0]] + s[1..] == s;
    }
  }

  /** `Sort` is a stable sort. */
  lemma SortIsStableSort<T>(s: seq<T>, key: T -> nat)
    ensures IsStableSortOf(Sort(s, key), s, key)
  {
    forall k ensures WithKey(Sort(s, key), key, k) == WithKey(s, key, k) {
      SortKeepsKeyOrder(s, key, k);
    }
  }

  /** Two key-ordered, non-empty sequences with the same elements and the same
      order among equal keys start with the same element. */
  lemma SameHead<T>(r1: seq<T>, r2: seq<T>, key: T -> nat)
    requires r1 != [] && r2 != []
    requires SortedBy(r1, key) && SortedBy(r2, key)
    requires multiset(r1) == multiset(r2)
    requires forall k :: WithKey(r1, key, k) == WithKey(r2, key, k)
    ensures r1[0] == r2[0]
  {
    assert r2[0] in multiset(r1);
    var j1 :| 0 <= j1 < |r1| && r1[j1] == r2[0];
    assert r1[0] in multiset(r2);
    var j2 :| 0 <= j2 < |r2| && r2[j2] == r1[0];
    assert key(r1[0]) <= key(r1[j1]) && key(r2[0]) <= key(r2[j2]);
    var m := key(r1[0]);
    assert WithKey(r1, key, m)[0] == r1[0];
    assert WithKey(r2, key, m)[0] == r2[0];
  }

  /** Dropping a common first element keeps the order among equal keys equal. */
  lemma SameKeyOrderOfTails<T>(r1: seq<T>, r2: seq<T>, key: T -> nat, k: nat)
    requires r1 != [] && r2 != [] && r1[0] == r2[0]
    requires WithKey(r1, key, k) == WithKey(r2, key, k)
    ensures WithKey(r1[1..], key, k) == WithKey(r2[1..], key, k)
  {
    var head := if key(r1[0]) == k then [r1[0]] else [];
    assert WithKey(r1, key, k) == head + WithKey(r1[1..], key, k);
    assert WithKey(r2, key, k) == head + WithKey(r2[1..], key, k);
    assert WithKey(r1[1..], key, k) == WithKey(r1, key, k)[|head|..];
  }

  lemma TailMultiset<T>(r: seq<T>)
    requires r != []
    ensures multiset(r[1..]) == multiset(r) - multiset{r[0]}
  {
    assert r == [r[0]] + r[1..];
  }

  /** Two key-ordered sequences with the same elements and the same order among
      equal keys are equal. */
  lemma {:induction false} KeyOrderedUnique<T>(r1: seq<T>, r2: seq<T>, key: T -> nat)
    requires SortedBy(r1, key) && SortedBy(r2, key)
    requires multiset(r1) == multiset(r2)
    requires forall k :: WithKey(r1, key, k) == WithKey(r2, key, k)
    ensures r1 == r2
    decreases |r1|
  {
    if r1 == [] {
      assert |multiset(r2)| == 0;
    } else {
      assert |r2| == |multiset(r2)| == |multiset(r1)| == |r1| > 0;
      SameHead(r1, r2, key);
      TailMultiset(r1);
      TailMultiset(r2);
      forall k ensures WithKey(r1[1..], key, k) == WithKey(r2[1..], key, k) {
        SameKeyOrderOfTails(r1, r2, key, k);
      }
      KeyOrderedUnique(r1[1..], r2[1..], key);
      assert r1 == [r1[0]] + r1[1..] && r2 == [r2[0]] + r2[1..];
    }
  }

  /** Any stable sort of `s` is `Sort(s, key)`: the insertion sort is exactly Python's `sorted`. */
  lemma StableSortIsUnique<T>(r: seq<T>, s: seq<T>, key: T -> nat)
    requires IsStableSortOf(r, s, key)
    ensures r == Sort(s, key)
  {
    SortIsStableSort(s, key);
    KeyOrderedUnique(r, Sort(s, key), key);
  }
}
