/** Sums over the values of a counting map. */
module Totals {

  ghost function Total<K(!new)>(m: map<K, nat>): nat {
    if m == map[] then 0
    else
      var k :| k in m;
      m[k] + Total(m - {k})
  }

  /** Any key may be taken out first. */
  lemma {:induction false} TotalTakeOut<K(!new)>(m: map<K, nat>, k: K)
    requires k in m
    ensures Total(m) == m[k] + Total(m - {k})
    decreases |m|
  {
    var p :| p in m && Total(m) == m[p] + Total(m - {p});
    if p != k {
      TotalTakeOut(m - {p}, k);
      TotalTakeOut(m - {k}, p);
      assert m - {p} - {k} == m - {k} - {p};
    }
  }

  function Get<K>(m: map<K, nat>, k: K): nat {
    if k in m then m[k] else 0
  }

  lemma TotalAdd<K(!new)>(m: map<K, nat>, k: K, amount: nat)
    ensures Total(m[k := Get(m, k) + amount]) == Total(m) + amount
  {
    var m' := m[k := Get(m, k) + amount];
    TotalTakeOut(m', k);
    if k in m {
      TotalTakeOut(m, k);
      assert m' - {k} == m - {k};
    } else {
      assert m' - {k} == m;
    }
  }
}
