/** Sums over the values of a map. */
module MapSums {
  ghost function AnyOf<K, V>(m: map<K, V>): (k: K)
    requires m != map[]
    ensures k in m
  {
    var k :| k in m;
    k
  }

  /** The sum of the sizes of all values, taken in some order. */
  ghost function Sum<K, V>(m: map<K, V>, size: V -> int): int
    decreases |m|
  {
    if m == map[] then 0 else size(m[AnyOf(m)]) + Sum(m - {AnyOf(m)}, size)
  }

  lemma SumUnfolds<K, V>(m: map<K, V>, size: V -> int)
    requires m != map[]
    ensures Sum(m, size) == size(m[AnyOf(m)]) + Sum(m - {AnyOf(m)}, size)
  {
  }

  /** The order does not matter: any value can be taken first. */
  lemma {:induction false} SumWithout<K, V>(m: map<K, V>, k: K, size: V -> int)
    requires k in m
    ensures Sum(m, size) == size(m[k]) + Sum(m - {k}, size)
    decreases |m|
  {
    hide Sum, AnyOf;
    SumUnfolds(m, size);
    var x := AnyOf(m);
    if k != x {
      var m1, m2 := m - {x}, m - {k};
      assert m1[k] == m[k] && m2[x] == m[x];
      SumWithout(m1, k, size);
      SumWithout(m2, x, size);
      assert m1 - {k} == m2 - {x};
    }
  }

  lemma SumUpdate<K, V>(m: map<K, V>, k: K, v: V, size: V -> int)
    ensures Sum(m[k := v], size) == Sum(m, size) + size(v) - if k in m then size(m[k]) else 0
  {
    hide Sum;
    SumWithout(m[k := v], k, size);
    assert m[k := v] - {k} == m - {k};
    if k in m {
      SumWithout(m, k, size);
    } else {
      assert m - {k} == m;
    }
  }

  lemma {:induction false} SumMonotone<K, V>(m: map<K, V>, m': map<K, V>, size: V -> int)
    requires m.Keys == m'.Keys && forall k :: k in m ==> size(m[k]) <= size(m'[k])
    ensures Sum(m, size) <= Sum(m', size)
    decreases |m|
  {
    if m == map[] {
      assert m' == map[];
    } else {
      var k := AnyOf(m);
      assert k in m';
      SumWithout(m', k, size);
      SumMonotone(m - {k}, m' - {k}, size);
    }
  }

  lemma {:induction false} SumNat<K, V>(m: map<K, V>, size: V -> int)
    requires forall k :: k in m ==> size(m[k]) >= 0
    ensures Sum(m, size) >= 0
    decreases |m|
  {
    if m != map[] {
      SumNat(m - {AnyOf(m)}, size);
    }
  }
}
