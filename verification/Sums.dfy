/** Sums over the values of a finite map, independent of iteration order. */
module Sums {
  ghost function Sum<K>(m: map<K, int>): int {
    if m == map[] then 0
    else
      var k :| k in m;
      m[k] + Sum(m - {k})
  }

  lemma {:induction false} SumWithout<K>(m: map<K, int>, k: K)
    requires k in m
    ensures Sum(m) == m[k] + Sum(m - {k})
    decreases |m|
  {
    var j :| j in m && Sum(m) == m[j] + Sum(m - {j});
    if j != k {
      SumWithout(m - {j}, k);
      SumWithout(m - {k}, j);
      assert m - {j} - {k} == m - {k} - {j};
    }
  }

  function Get<K>(m: map<K, int>, k: K): int {
    if k in m then m[k] else 0
  }

  lemma SumRemove<K>(m: map<K, int>, k: K)
    ensures Sum(m - {k}) == Sum(m) - Get(m, k)
  {
    if k in m {
      SumWithout(m, k);
    } else {
      assert m - {k} == m;
    }
  }

  lemma SumUpdate<K>(m: map<K, int>, k: K, v: int)
    ensures Sum(m[k := v]) == Sum(m) - Get(m, k) + v
  {
    SumWithout(m[k := v], k);
    assert m[k := v] - {k} == m - {k};
    SumRemove(m, k);
  }

  lemma {:induction false} SumNonNegative<K>(m: map<K, int>)
    requires forall k :: k in m ==> m[k] >= 0
    ensures Sum(m) >= 0
    decreases |m|
  {
    if m != map[] {
      var k :| k in m;
      SumWithout(m, k);
      SumNonNegative(m - {k});
    }
  }

  /** No entry exceeds the sum of non-negative entries. */
  lemma EntryBelowSum<K>(m: map<K, int>, k: K)
    requires forall j :: j in m ==> m[j] >= 0
    ensures 0 <= Get(m, k) <= Sum(m)
  {
    SumRemove(m, k);
    SumNonNegative(m - {k});
  }

  lemma {:induction false} SumOfZeros<K>(m: map<K, int>)
    requires forall k :: k in m ==> m[k] == 0
    ensures Sum(m) == 0
    decreases |m|
  {
    if m != map[] {
      var k :| k in m;
      SumWithout(m, k);
      SumOfZeros(m - {k});
    }
  }

  /** A map that is nowhere larger has no larger sum; keys missing from a map count as zero. */
  lemma {:induction false} SumMonotone<K>(m: map<K, int>, n: map<K, int>)
    requires forall k :: Get(m, k) <= Get(n, k)
    ensures Sum(m) <= Sum(n)
    decreases |m|
  {
    if m == map[] {
      forall k | k in n ensures n[k] >= 0 {
        assert Get(m, k) <= Get(n, k);
      }
      SumNonNegative(n);
    } else {
      var k :| k in m;
      SumRemove(m, k);
      SumRemove(n, k);
      forall j ensures Get(m - {k}, j) <= Get(n - {k}, j) {
        assert Get(m, j) <= Get(n, j);
      }
      SumMonotone(m - {k}, n - {k});
      assert Get(m, k) <= Get(n, k);
    }
  }
}
