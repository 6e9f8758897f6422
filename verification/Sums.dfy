/** Sums of a natural-valued measure over the values of a map. */
module Sums {

  ghost function SumBy<K, V>(m: map<K, V>, f: V -> nat): nat
    decreases |m|
  {
    if m == map[] then 0
    else
      var k :| k in m;
      f(m[k]) + SumBy(m - {k}, f)
  }

  /** The sum does not depend on the order in which keys are taken. */
  lemma {:induction false} SumRemove<K, V>(m: map<K, V>, k: K, f: V -> nat)
    requires k in m
    ensures SumBy(m, f) == f(m[k]) + SumBy(m - {k}, f)
    decreases |m|
  {
    var j :| j in m && SumBy(m, f) == f(m[j]) + SumBy(m - {j}, f);
    if j != k {
      SumRemove(m - {j}, k, f);
      SumRemove(m - {k}, j, f);
      assert m - {j} - {k} == m - {k} - {j};
    }
  }

  lemma SumInsert<K, V>(m: map<K, V>, k: K, v: V, f: V -> nat)
    requires k !in m
    ensures SumBy(m[k := v], f) == SumBy(m, f) + f(v)
  {
    SumRemove(m[k := v], k, f);
    assert m[k := v] - {k} == m;
  }

  lemma SumUpdate<K, V>(m: map<K, V>, k: K, v: V, f: V -> nat)
    requires k in m
    ensures SumBy(m[k := v], f) == SumBy(m, f) - f(m[k]) + f(v)
  {
    SumRemove(m, k, f);
    SumRemove(m[k := v], k, f);
    assert m[k := v] - {k} == m - {k};
  }

  lemma {:induction false} SumPointwise<K, V>(m: map<K, V>, f: V -> nat, g: V -> nat, h: V -> nat)
    requires forall k :: k in m ==> f(m[k]) + g(m[k]) <= h(m[k])
    ensures SumBy(m, f) + SumBy(m, g) <= SumBy(m, h)
    decreases |m|
  {
    if m != map[] {
      var k :| k in m;
      SumRemove(m, k, f);
      SumRemove(m, k, g);
      SumRemove(m, k, h);
      SumPointwise(m - {k}, f, g, h);
    }
  }
}
