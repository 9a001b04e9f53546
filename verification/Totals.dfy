/** Sums over finite maps, for the store's accounting. */
module Totals {

  ghost function Total<K, V>(m: map<K, V>, f: V -> int): int {
    if m == map[] then 0
    else
      var k :| k in m;
      f(m[k]) + Total(m - {k}, f)
  }

  function Restrict<K, V>(m: map<K, V>, s: set<K>): map<K, V> {
    map k | k in m && k in s :: m[k]
  }

  lemma {:induction false} TotalWithout<K, V>(m: map<K, V>, f: V -> int, k: K)
    requires k in m
    ensures Total(m, f) == f(m[k]) + Total(m - {k}, f)
    decreases |m|
  {
    var p :| p in m && Total(m, f) == f(m[p]) + Total(m - {p}, f);
    if p != k {
      TotalWithout(m - {p}, f, k);
      TotalWithout(m - {k}, f, p);
      assert m - {p} - {k} == m - {k} - {p};
    }
  }

  lemma TotalUpdate<K, V>(m: map<K, V>, f: V -> int, k: K, v: V)
    ensures Total(m[k := v], f) == Total(m, f) - (if k in m then f(m[k]) else 0) + f(v)
  {
    TotalWithout(m[k := v], f, k);
    assert m[k := v] - {k} == m - {k};
    if k in m {
      TotalWithout(m, f, k);
    } else {
      assert m - {k} == m;
    }
  }

  lemma {:induction false} TotalSplit<K, V>(m: map<K, V>, f: V -> int, s: set<K>)
    ensures Total(m, f) == Total(m - s, f) + Total(Restrict(m, s), f)
    decreases |m|
  {
    hide Total;
    if k :| k in m && k in s {
      var r := m - {k};
      TotalWithout(m, f, k);
      TotalSplit(r, f, s);
      TotalWithout(Restrict(m, s), f, k);
      assert Restrict(m, s) - {k} == Restrict(r, s);
      assert m - s == r - s;
    } else {
      assert m - s == m;
      TotalOfNothing(Restrict(m, s), f);
    }
  }

  lemma TotalOfNothing<K, V>(m: map<K, V>, f: V -> int)
    requires forall k :: k !in m
    ensures Total(m, f) == 0
  {
    assert m == map[];
  }

  lemma {:induction false} TotalNonNegative<K, V>(m: map<K, V>, f: V -> int)
    requires forall k :: k in m ==> f(m[k]) >= 0
    ensures Total(m, f) >= 0
    decreases |m|
  {
    if k :| k in m {
      TotalWithout(m, f, k);
      TotalNonNegative(m - {k}, f);
    }
  }

  /** A total of a sum is the sum of the totals. */
  lemma {:induction false} TotalSum<K, V>(m: map<K, V>, f: V -> int, g: V -> int, h: V -> int)
    requires forall v :: h(v) == f(v) + g(v)
    ensures Total(m, h) == Total(m, f) + Total(m, g)
    decreases |m|
  {
    if k :| k in m {
      TotalWithout(m, f, k);
      TotalWithout(m, g, k);
      TotalWithout(m, h, k);
      TotalSum(m - {k}, f, g, h);
    }
  }
}
