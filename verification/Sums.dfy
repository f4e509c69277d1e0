/** Sums over finite maps, used for byte and object counters. */
module Sums {

  ghost function Sum<K>(m: map<K, int>): int {
    if m == map[] then 0 else
      var k :| k in m;
      m[k] + Sum(m - {k})
  }

  lemma {:induction false} SumPick<K>(m: map<K, int>, k: K)
    requires k in m
    ensures Sum(m) == m[k] + Sum(m - {k})
    decreases m
  {
    var p :| p in m && Sum(m) == m[p] + Sum(m - {p});
    if p != k {
      SumPick(m - {p}, k);
      SumPick(m - {k}, p);
      assert m - {p} - {k} == m - {k} - {p};
    }
  }

  lemma SumUpdate<K>(m: map<K, int>, k: K, v: int)
    ensures Sum(m[k := v]) == Sum(m) - (if k in m then m[k] else 0) + v
  {
    SumPick(m[k := v], k);
    assert m[k := v] - {k} == m - {k};
    if k in m {
      SumPick(m, k);
    } else {
      assert m - {k} == m;
    }
  }

  lemma {:induction false} SumLowerBound<K>(m: map<K, int>, k: K)
    requires forall x :: x in m ==> m[x] >= 0
    ensures Sum(m) >= 0
    ensures k in m ==> m[k] <= Sum(m)
    decreases m
  {
    if m != map[] {
      var p :| p in m;
      SumPick(m, p);
      SumLowerBound(m - {p}, p);
      if k in m {
        SumPick(m, k);
        SumLowerBound(m - {k}, k);
      }
    }
  }
}
