/** Finite sums of natural numbers indexed by a map's keys. */
module Sums {

  ghost function Sum<K(!new)>(m: map<K, nat>): nat {
    if m == map[] then 0 else
      var k :| k in m;
      m[k] + Sum(m - {k})
  }

  lemma SumEmpty<K(!new)>()
    ensures Sum<K>(map[]) == 0
  {
  }

  lemma {:induction false} SumRemove<K(!new)>(m: map<K, nat>, k: K)
    requires k in m
    ensures Sum(m) == m[k] + Sum(m - {k})
    decreases |m|
  {
    var j :| j in m && Sum(m) == m[j] + Sum(m - {j});
    if j != k {
      SumRemove(m - {j}, k);
      SumRemove(m - {k}, j);
      assert m - {j} - {k} == m - {k} - {j};
    }
  }

  /** Sums add pointwise. */
  lemma {:induction false} SumAdd<K(!new)>(a: map<K, nat>, b: map<K, nat>, c: map<K, nat>)
    requires a.Keys == b.Keys == c.Keys
    requires forall k :: k in c ==> c[k] == a[k] + b[k]
    ensures Sum(c) == Sum(a) + Sum(b)
    decreases |c|
  {
    hide Sum;
    if c == map[] {
      SumEmpty<K>();
      assert a == map[] && b == map[] by {
        assert a.Keys == {} && b.Keys == {};
      }
    } else {
      var k :| k in c;
      SumRemove(a, k);
      SumRemove(b, k);
      SumRemove(c, k);
      SumAdd(a - {k}, b - {k}, c - {k});
    }
  }

  /** Zero entries do not count. */
  lemma {:induction false} SumExtend<K(!new)>(m: map<K, nat>, wide: map<K, nat>)
    requires m.Keys <= wide.Keys
    requires forall k :: k in wide ==> wide[k] == if k in m then m[k] else 0
    ensures Sum(wide) == Sum(m)
    decreases |wide|
  {
    hide Sum;
    if wide == map[] {
      assert m == map[];
    } else {
      var k :| k in wide;
      SumRemove(wide, k);
      if k in m {
        SumRemove(m, k);
        SumExtend(m - {k}, wide - {k});
      } else {
        assert m - {k} == m;
        SumExtend(m, wide - {k});
      }
    }
  }

  /** A sum bounded entry by entry is bounded, and equal only if every entry is. */
  lemma {:induction false} SumMonotone<K(!new)>(a: map<K, nat>, b: map<K, nat>)
    requires a.Keys == b.Keys
    requires forall k :: k in a ==> a[k] <= b[k]
    ensures Sum(a) <= Sum(b)
    ensures Sum(a) == Sum(b) <==> a == b
    decreases |a|
  {
    hide Sum;
    if a == map[] {
      assert b == map[] by {
        assert b.Keys == {};
      }
    } else {
      var k :| k in a;
      SumRemove(a, k);
      SumRemove(b, k);
      SumMonotone(a - {k}, b - {k});
      if a - {k} == b - {k} && a[k] == b[k] {
        assert a == (a - {k})[k := a[k]] && b == (b - {k})[k := b[k]];
      }
    }
  }
}
