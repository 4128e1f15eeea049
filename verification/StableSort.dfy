/** Python's `sorted(xs, key=...)`: ascending, stable. */
module StableSort {

  predicate Sorted<T>(xs: seq<T>, key: T -> real) {
    forall i, j :: 0 <= i < j < |xs| ==> key(xs[i]) <= key(xs[j])
  }

  function Insert<T>(x: T, xs: seq<T>, key: T -> real): (r: seq<T>)
    ensures |r| == |xs| + 1
  {
    if xs == [] then [x]
    else if key(x) <= key(xs[0]) then [x] + xs
    else [xs[0]] + Insert(x, xs[1..], key)
  }

  function Sort<T>(xs: seq<T>, key: T -> real): (r: seq<T>)
    ensures |r| == |xs|
  {
    if xs == [] then [] else Insert(xs[0], Sort(xs[1..], key), key)
  }

  lemma {:induction false} InsertKeepsAll<T>(x: T, xs: seq<T>, key: T -> real)
    ensures multiset(Insert(x, xs, key)) == multiset([x]) + multiset(xs)
  {
    if xs != [] && key(x) > key(xs[0]) {
      InsertKeepsAll(x, xs[1..], key);
      assert xs == [xs[0]] + xs[1..];
    }
  }

  lemma {:induction false} InsertSorted<T>(x: T, xs: seq<T>, key: T -> real)
    requires Sorted(xs, key)
    ensures Sorted(Insert(x, xs, key), key)
    ensures xs != [] && key(xs[0]) < key(x) ==> key(xs[0]) <= key(Insert(x, xs, key)[0])
    ensures (xs == [] || key(x) <= key(xs[0])) ==> Insert(x, xs, key)[0] == x
  {
    if xs != [] && key(x) > key(xs[0]) {
      InsertSorted(x, xs[1..], key);
      var rest := Insert(x, xs[1..], key);
      assert key(xs[0]) <= key(rest[0]);
    }
  }

  /** Sorting orders by key and keeps every element as often as it occurred. */
  lemma {:induction false} SortSorts<T>(xs: seq<T>, key: T -> real)
    ensures Sorted(Sort(xs, key), key)
    ensures multiset(Sort(xs, key)) == multiset(xs)
  {
    if xs != [] {
      SortSorts(xs[1..], key);
      InsertSorted(xs[0], Sort(xs[1..], key), key);
      InsertKeepsAll(xs[0], Sort(xs[1..], key), key);
      assert xs == [xs[0]] + xs[1..];
    }
  }

  /** The elements with key `k`, in order. */
  function WithKey<T>(xs: seq<T>, key: T -> real, k: real): seq<T> {
    if xs == [] then [] else Only(xs[0], key, k) + WithKey(xs[1..], key, k)
  }

  function Only<T>(x: T, key: T -> real, k: real): seq<T> {
    if key(x) == k then [x] else []
  }

  lemma WithKeyCons<T>(x: T, xs: seq<T>, key: T -> real, k: real)
    ensures WithKey([x] + xs, key, k) == Only(x, key, k) + WithKey(xs, key, k)
  {
    assert ([x] + xs)[1..] == xs;
  }

  lemma OnlyOneHas<T>(x: T, y: T, rest: seq<T>, key: T -> real, k: real)
    requires key(x) != key(y)
    ensures Only(x, key, k) + (Only(y, key, k) + rest) == Only(y, key, k) + (Only(x, key, k) + rest)
  {
    if key(x) == k {
      assert Only(y, key, k) == [];
      assert [] + ([x] + rest) == [x] + ([] + rest);
    } else {
      assert Only(x, key, k) == [];
      assert [] + (Only(y, key, k) + rest) == Only(y, key, k) + ([] + rest);
    }
  }

  lemma {:induction false} InsertStable<T>(x: T, xs: seq<T>, key: T -> real, k: real)
    ensures WithKey(Insert(x, xs, key), key, k) == Only(x, key, k) + WithKey(xs, key, k)
    decreases |xs|
  {
    hide WithKey, Only;
    WithKeyCons(x, xs, key, k);
    if xs == [] {
      assert [x] + xs == [x];
    } else if key(x) > key(xs[0]) {
      var tail := xs[1..];
      InsertStable(x, tail, key, k);
      WithKeyCons(xs[0], tail, key, k);
      WithKeyCons(xs[0], Insert(x, tail, key), key, k);
      OnlyOneHas(x, xs[0], WithKey(tail, key, k), key, k);
      assert xs == [xs[0]] + tail;
      assert Insert(x, xs, key) == [xs[0]] + Insert(x, tail, key);
    }
  }

  /** Elements with equal keys stay in order. */
  lemma {:induction false} SortStable<T>(xs: seq<T>, key: T -> real, k: real)
    ensures WithKey(Sort(xs, key), key, k) == WithKey(xs, key, k)
  {
    if xs != [] {
      hide WithKey, Only;
      SortStable(xs[1..], key, k);
      WithKeyCons(xs[0], xs[1..], key, k);
      assert xs == [xs[0]] + xs[1..];
      InsertStable(xs[0], Sort(xs[1..], key), key, k);
    }
  }
}
