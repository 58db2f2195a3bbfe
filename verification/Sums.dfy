/** Sums over finite maps, independent of the order of summation. */
module Sums {

  /** The sum of `f` over the values of `m`. */
  ghost function Sum<K, V>(m: map<K, V>, f: V -> nat): nat
    decreases |m|
  {
    if m == map[] then 0
    else
      var k :| k in m;
      assert (m - {k}).Keys == m.Keys - {k};
      f(m[k]) + Sum(m - {k}, f)
  }

  lemma {:induction false} SumOut<K, V>(m: map<K, V>, f: V -> nat, k: K)
    requires k in m
    ensures Sum(m, f) == f(m[k]) + Sum(m - {k}, f)
    decreases |m|
  {
    var j :| j in m && Sum(m, f) == f(m[j]) + Sum(m - {j}, f);
    if j != k {
      assert (m - {j}).Keys == m.Keys - {j};
      assert (m - {k}).Keys == m.Keys - {k};
      SumOut(m - {j}, f, k);
      SumOut(m - {k}, f, j);
      assert m - {j} - {k} == m - {k} - {j};
    }
  }

  /** Storing a value changes the sum by what it adds over the value it replaces. */
  lemma SumSet<K, V>(m: map<K, V>, f: V -> nat, k: K, v: V)
    ensures Sum(m[k := v], f) + (if k in m then f(m[k]) else 0) == Sum(m, f) + f(v)
  {
    SumOut(m[k := v], f, k);
    assert m[k := v] - {k} == m - {k};
    if k in m {
      SumOut(m, f, k);
    } else {
      assert m - {k} == m;
    }
  }
}
