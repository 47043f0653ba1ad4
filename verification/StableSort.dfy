/** The library sort the daemon relies on: stable, by an integer key. */
module StableSort {

  function Insert<T>(x: T, s: seq<T>, key: T -> int): seq<T> {
    if s == [] || key(x) <= key(s[0]) then [x] + s else [s[0]] + Insert(x, s[1..], key)
  }

  function SortBy<T>(s: seq<T>, key: T -> int): seq<T> {
    if s == [] then [] else Insert(s[0], SortBy(s[1..], key), key)
  }

  ghost predicate Sorted<T>(s: seq<T>, key: T -> int) {
    forall i, j :: 0 <= i < j < |s| ==> key(s[i]) <= key(s[j])
  }

  // The elements with key `k`, in order.
  ghost function WithKey<T>(s: seq<T>, key: T -> int, k: int): seq<T> {
    if s == [] then [] else (if key(s[0]) == k then [s[0]] else []) + WithKey(s[1..], key, k)
  }

  lemma {:induction false} InsertElements<T>(x: T, s: seq<T>, key: T -> int)
    ensures multiset(Insert(x, s, key)) == multiset(s) + multiset{x}
    decreases |s|
  {
    if s != [] && key(x) > key(s[0]) {
      InsertElements(x, s[1..], key);
      assert s == [s[0]] + s[1..];
    }
  }

  lemma {:induction false} InsertKeepsOrder<T>(x: T, s: seq<T>, key: T -> int, k: int)
    ensures key(x) == k ==> WithKey(Insert(x, s, key), key, k) == [x] + WithKey(s, key, k)
    ensures key(x) != k ==> WithKey(Insert(x, s, key), key, k) == WithKey(s, key, k)
    decreases |s|
  {
    if s == [] || key(x) <= key(s[0]) {
      assert ([x] + s)[1..] == s;
    } else {
      var r := Insert(x, s[1..], key);
      InsertKeepsOrder(x, s[1..], key, k);
      assert ([s[0]] + r)[1..] == r;
      if key(s[0]) != k {
        assert WithKey([s[0]] + r, key, k) == WithKey(r, key, k);
        assert WithKey(s, key, k) == WithKey(s[1..], key, k);
      }
    }
  }

  lemma {:induction false} InsertSorts<T>(x: T, s: seq<T>, key: T -> int)
    requires Sorted(s, key)
    ensures Sorted(Insert(x, s, key), key)
    decreases |s|
  {
    if s != [] && key(x) > key(s[0]) {
      InsertSorts(x, s[1..], key);
      InsertElements(x, s[1..], key);
      var r := Insert(x, s[1..], key);
      forall i | 0 <= i < |r|
        ensures key(s[0]) <= key(r[i])
      {
        assert r[i] in multiset(r);
      }
      SortedFrom(s[0], r, key);
    } else {
      SortedFrom(x, s, key);
    }
  }

  lemma SortedFrom<T>(first: T, rest: seq<T>, key: T -> int)
    requires Sorted(rest, key) && forall i :: 0 <= i < |rest| ==> key(first) <= key(rest[i])
    ensures Sorted([first] + rest, key)
  {
  }

  /** The result is sorted, has the same elements, and keeps the order of equal keys. */
  lemma {:induction false} SortBySorts<T>(s: seq<T>, key: T -> int, k: int)
    ensures var r := SortBy(s, key);
      && Sorted(r, key) && multiset(r) == multiset(s)
      && WithKey(r, key, k) == WithKey(s, key, k)
  {
    hide SortBy, Sorted, WithKey;
    SortBySorted(s, key);
    SortByElements(s, key);
    SortByKeepsOrder(s, key, k);
  }

  lemma {:induction false} SortBySorted<T>(s: seq<T>, key: T -> int)
    ensures Sorted(SortBy(s, key), key)
    decreases |s|
  {
    if s != [] {
      SortBySorted(s[1..], key);
      InsertSorts(s[0], SortBy(s[1..], key), key);
    }
  }

  lemma {:induction false} SortByElements<T>(s: seq<T>, key: T -> int)
    ensures multiset(SortBy(s, key)) == multiset(s)
    decreases |s|
  {
    if s != [] {
      SortByElements(s[1..], key);
      InsertElements(s[0], SortBy(s[1..], key), key);
      assert s == [s[0]] + s[1..];
    }
  }

  lemma {:induction false} SortByKeepsOrder<T>(s: seq<T>, key: T -> int, k: int)
    ensures WithKey(SortBy(s, key), key, k) == WithKey(s, key, k)
    decreases |s|
  {
    if s != [] {
      SortByKeepsOrder(s[1..], key, k);
      InsertKeepsOrder(s[0], SortBy(s[1..], key), key, k);
    }
  }

  /** Sorting what is sorted already changes nothing. */
  lemma {:induction false} SortedUnchanged<T>(s: seq<T>, key: T -> int)
    requires Sorted(s, key)
    ensures SortBy(s, key) == s
    decreases |s|
  {
    if s != [] {
      SortedUnchanged(s[1..], key);
    }
  }
}
