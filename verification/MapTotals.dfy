/** Totals over the values of a map of counters. */
module MapTotals {

  ghost function MapTotal<K>(m: map<K, nat>): nat
    decreases |m|
  {
    if m == map[] then 0
    else
      var k :| k in m;
      m[k] + MapTotal(m - {k})
  }

  /** Any key may be taken out first. */
  lemma {:induction false} MapTotalRemove<K>(m: map<K, nat>, k: K)
    requires k in m
    ensures MapTotal(m) == m[k] + MapTotal(m - {k})
    decreases |m|
  {
    var first :| first in m && MapTotal(m) == m[first] + MapTotal(m - {first});
    if first != k {
      MapTotalRemove(m - {first}, k);
      MapTotalRemove(m - {k}, first);
      assert m - {first} - {k} == m - {k} - {first};
    }
  }

  function At<K>(m: map<K, nat>, k: K): nat {
    if k in m then m[k] else 0
  }

  lemma MapTotalUpdate<K>(m: map<K, nat>, k: K, v: nat)
    ensures MapTotal(m[k := v]) == MapTotal(m) - At(m, k) + v
  {
    MapTotalRemove(m[k := v], k);
    if k in m {
      MapTotalRemove(m, k);
      assert m[k := v] - {k} == m - {k};
    } else {
      assert m[k := v] - {k} == m;
    }
  }

  lemma {:induction false} MapTotalZero<K>(m: map<K, nat>)
    requires forall k :: k in m ==> m[k] == 0
    ensures MapTotal(m) == 0
    decreases |m|
  {
    if m != map[] {
      var k :| k in m;
      MapTotalRemove(m, k);
      MapTotalZero(m - {k});
    }
  }
}
