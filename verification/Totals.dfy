/** Totals over sequences, and splitting them by groups. */
module Totals {

  function Total<T(!new)>(xs: seq<T>, f: T -> nat): nat
    decreases |xs|
  {
    if xs == [] then 0 else Total(xs[..|xs| - 1], f) + f(xs[|xs| - 1])
  }

  lemma TotalPush<T(!new)>(xs: seq<T>, x: T, f: T -> nat)
    ensures Total(xs + [x], f) == Total(xs, f) + f(x)
  {
    assert (xs + [x])[..|xs|] == xs;
  }

  lemma {:induction false} TotalAppend<T(!new)>(a: seq<T>, b: seq<T>, f: T -> nat)
    ensures Total(a + b, f) == Total(a, f) + Total(b, f)
    decreases |b|
  {
    if b == [] {
      assert a + b == a;
    } else {
      assert (a + b)[..|a + b| - 1] == a + b[..|b| - 1];
      TotalAppend(a, b[..|b| - 1], f);
    }
  }

  lemma {:induction false} TotalExact<T(!new)>(xs: seq<T>, f: T -> nat, g: T -> nat)
    requires forall i :: 0 <= i < |xs| ==> f(xs[i]) == g(xs[i])
    ensures Total(xs, f) == Total(xs, g)
    decreases |xs|
  {
    if xs != [] {
      TotalExact(xs[..|xs| - 1], f, g);
    }
  }

  /** Totals do not depend on the order. */
  lemma {:induction false} TotalPermutes<T(!new)>(a: seq<T>, b: seq<T>, f: T -> nat)
    requires multiset(a) == multiset(b)
    ensures Total(a, f) == Total(b, f)
    decreases |a|
  {
    if a == [] {
      assert |multiset(b)| == 0;
      assert b == [];
    } else {
      var n := |a| - 1;
      var x := a[n];
      assert x in multiset(a);
      var i :| 0 <= i < |b| && b[i] == x;
      var l, r := b[..i], b[i + 1..];
      assert b == l + [x] + r;
      assert a == a[..n] + [x];
      assert multiset(a) == multiset(a[..n]) + multiset{x};
      assert multiset(b) == multiset(l + r) + multiset{x};
      assert multiset(a[..n]) == multiset(a) - multiset{x};
      TotalPermutes(a[..n], l + r, f);
      TotalAppend(l, r, f);
      TotalPush(l, x, f);
      TotalAppend(l + [x], r, f);
    }
  }

  predicate Distinct<K(==)>(ks: seq<K>) {
    forall i, j :: 0 <= i < j < |ks| ==> ks[i] != ks[j]
  }

  /** The elements whose key is `k`, in order. */
  function Group<X, K(==)>(items: seq<X>, key: X -> K, k: K): seq<X>
    decreases |items|
  {
    if items == [] then [] else
      var n := |items| - 1;
      Group(items[..n], key, k) + (if key(items[n]) == k then [items[n]] else [])
  }

  /** The keys in the order they first occur. */
  function Keys<X, K(==)>(items: seq<X>, key: X -> K): seq<K>
    decreases |items|
  {
    if items == [] then [] else
      var n := |items| - 1;
      var before := Keys(items[..n], key);
      if key(items[n]) in before then before else before + [key(items[n])]
  }

  lemma {:induction false} KeysExact<X(!new), K>(items: seq<X>, key: X -> K)
    ensures Distinct(Keys(items, key))
    ensures forall k :: k in Keys(items, key) <==> exists i :: 0 <= i < |items| && key(items[i]) == k
    decreases |items|
  {
    if items != [] {
      var n := |items| - 1;
      var init := items[..n];
      KeysExact(init, key);
      assert forall i :: 0 <= i < n ==> items[i] == init[i];
      var before := Keys(init, key);
      assert forall k :: k in Keys(items, key) <==> k in before || k == key(items[n]);
    }
  }

  /** The total of one group under `f`. */
  function GroupTotal<X(!new), K(==)>(items: seq<X>, key: X -> K, f: X -> nat): K -> nat {
    k => Total(Group(items, key, k), f)
  }

  lemma GroupTotalStep<X(!new), K>(items: seq<X>, key: X -> K, f: X -> nat, k: K)
    requires items != []
    ensures var n := |items| - 1;
      GroupTotal(items, key, f)(k) == GroupTotal(items[..n], key, f)(k) + if key(items[n]) == k then f(items[n]) else 0
  {
    var n := |items| - 1;
    var g := Group(items[..n], key, k);
    if key(items[n]) == k {
      TotalPush(g, items[n], f);
    } else {
      assert g + [] == g;
    }
  }

  lemma {:induction false} TotalChange<K(!new)>(ks: seq<K>, f: K -> nat, g: K -> nat, x: K, w: nat)
    requires Distinct(ks)
    requires forall k :: g(k) == f(k) + if k == x then w else 0
    ensures Total(ks, g) == Total(ks, f) + if x in ks then w else 0
    decreases |ks|
  {
    if ks != [] {
      TotalChange(ks[..|ks| - 1], f, g, x, w);
      assert ks == ks[..|ks| - 1] + [ks[|ks| - 1]];
    }
  }

  lemma {:induction false} TotalZero<K(!new)>(ks: seq<K>, f: K -> nat)
    requires forall k :: f(k) == 0
    ensures Total(ks, f) == 0
    decreases |ks|
  {
    if ks != [] {
      TotalZero(ks[..|ks| - 1], f);
    }
  }

  /** Groups whose keys cover the elements account for each element once. */
  lemma {:induction false} GroupsPartition<X(!new), K(!new)>(items: seq<X>, key: X -> K, ks: seq<K>, f: X -> nat)
    requires Distinct(ks) && forall i :: 0 <= i < |items| ==> key(items[i]) in ks
    ensures Total(ks, GroupTotal(items, key, f)) == Total(items, f)
    decreases |items|
  {
    hide Total, Group;
    if items == [] {
      EmptyGroups<X, K>(key, f);
      TotalZero(ks, GroupTotal(items, key, f));
      TotalOfNone(f);
    } else {
      var n := |items| - 1;
      GroupsPartition(items[..n], key, ks, f);
      forall k {
        GroupTotalStep(items, key, f, k);
      }
      TotalChange(ks, GroupTotal(items[..n], key, f), GroupTotal(items, key, f), key(items[n]), f(items[n]));
      assert items == items[..n] + [items[n]];
      TotalPush(items[..n], items[n], f);
    }
  }

  lemma TotalOfNone<X(!new)>(f: X -> nat)
    ensures Total([], f) == 0
  {
  }

  lemma EmptyGroups<X(!new), K(!new)>(key: X -> K, f: X -> nat)
    ensures forall k :: GroupTotal([], key, f)(k) == 0
  {
  }

  function Filtered<X, K(==)>(key: X -> K, k: K, f: X -> nat): X -> nat {
    (x: X) => if key(x) == k then f(x) else 0
  }

  function Composed<T, U>(m: T -> U, f: U -> nat): T -> nat {
    (x: T) => f(m(x))
  }

  /** A group's total counts each element of the whole under its own key. */
  lemma {:induction false} TotalOfGroup<X(!new), K>(items: seq<X>, key: X -> K, k: K, f: X -> nat)
    ensures Total(Group(items, key, k), f) == Total(items, Filtered(key, k, f))
    decreases |items|
  {
    if items != [] {
      TotalOfGroup(items[..|items| - 1], key, k, f);
      GroupTotalStep(items, key, f, k);
    }
  }

  function Mapped<T, U>(xs: seq<T>, m: T -> U): seq<U> {
    seq(|xs|, i requires 0 <= i < |xs| => m(xs[i]))
  }

  lemma {:induction false} TotalOfMapped<T(!new), U(!new)>(xs: seq<T>, m: T -> U, f: U -> nat)
    ensures Total(Mapped(xs, m), f) == Total(xs, Composed(m, f))
    decreases |xs|
  {
    if xs != [] {
      var n := |xs| - 1;
      TotalOfMapped(xs[..n], m, f);
      assert Mapped(xs, m) == Mapped(xs[..n], m) + [m(xs[n])];
    }
  }

  lemma MappedPush<T, U>(xs: seq<T>, x: T, m: T -> U)
    ensures Mapped(xs + [x], m) == Mapped(xs, m) + [m(x)]
  {
  }
}
