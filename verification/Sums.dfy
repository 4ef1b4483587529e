// Sums over the entries of a map.
module Sums {

  ghost function Total<K(!new)>(m: map<K, real>): real
    decreases |m|
  {
    if m == map[] then 0.0
    else
      var k :| k in m;
      assert |m - {k}| < |m| by { Smaller(m, k); }
      m[k] + Total(m - {k})
  }

  ghost function TotalInt<K(!new)>(m: map<K, int>): int
    decreases |m|
  {
    if m == map[] then 0
    else
      var k :| k in m;
      assert |m - {k}| < |m| by { Smaller(m, k); }
      m[k] + TotalInt(m - {k})
  }

  lemma Smaller<K, V>(m: map<K, V>, k: K)
    requires k in m
    ensures |m - {k}| == |m| - 1
  {
    assert (m - {k}).Keys == m.Keys - {k};
    assert |m| == |m.Keys| && |m - {k}| == |(m - {k}).Keys|;
  }

  /** Any entry can be taken out first. */
  lemma {:induction false} TakeOut<K(!new)>(m: map<K, real>, k: K)
    requires k in m
    ensures Total(m) == m[k] + Total(m - {k})
    decreases |m|
  {
    var j :| j in m && Total(m) == m[j] + Total(m - {j});
    if j != k {
      Smaller(m, j);
      Smaller(m, k);
      TakeOut(m - {j}, k);
      TakeOut(m - {k}, j);
      assert m - {j} - {k} == m - {k} - {j};
    }
  }

  lemma {:induction false} TakeOutInt<K(!new)>(m: map<K, int>, k: K)
    requires k in m
    ensures TotalInt(m) == m[k] + TotalInt(m - {k})
    decreases |m|
  {
    var j :| j in m && TotalInt(m) == m[j] + TotalInt(m - {j});
    if j != k {
      Smaller(m, j);
      Smaller(m, k);
      TakeOutInt(m - {j}, k);
      TakeOutInt(m - {k}, j);
      assert m - {j} - {k} == m - {k} - {j};
    }
  }

  lemma PutIn<K(!new)>(m: map<K, real>, k: K, v: real)
    ensures Total(m[k := v]) == Total(m - {k}) + v
    ensures k !in m ==> Total(m[k := v]) == Total(m) + v
  {
    TakeOut(m[k := v], k);
    assert m[k := v] - {k} == m - {k};
    if k !in m {
      assert m - {k} == m;
    }
  }

  lemma PutInInt<K(!new)>(m: map<K, int>, k: K, v: int)
    requires k in m
    ensures TotalInt(m[k := v]) == TotalInt(m) - m[k] + v
  {
    TakeOutInt(m[k := v], k);
    TakeOutInt(m, k);
    assert m[k := v] - {k} == m - {k};
  }

  lemma {:induction false} NotNegative<K(!new)>(m: map<K, real>)
    requires forall k <- m :: m[k] >= 0.0
    ensures Total(m) >= 0.0
    decreases |m|
  {
    if m != map[] {
      var k :| k in m;
      Smaller(m, k);
      TakeOut(m, k);
      NotNegative(m - {k});
    }
  }

  lemma TotalOfNothing<K(!new)>()
    ensures Total<K>(map[]) == 0.0
  {
  }

  /** Entries of the second map take the place of those of the first. */
  lemma {:induction false} MergeTotal<K(!new)>(m: map<K, real>, m': map<K, real>)
    ensures Total(m + m') == Total(m - m'.Keys) + Total(m')
    decreases |m'|
  {
    hide Total;
    TotalOfNothing<K>();
    if m' == map[] {
      assert m + m' == m && m - m'.Keys == m;
    } else {
      var k :| k in m';
      Smaller(m', k);
      TakeOut(m + m', k);
      TakeOut(m', k);
      WithoutOne(m, m', k);
      MergeTotal(m - {k}, m' - {k});
    }
  }

  lemma WithoutOne<K, V>(m: map<K, V>, m': map<K, V>, k: K)
    requires k in m'
    ensures (m + m') - {k} == (m - {k}) + (m' - {k}) && (m - {k}) - (m' - {k}).Keys == m - m'.Keys
    ensures (m + m')[k] == m'[k]
  {
    assert (m' - {k}).Keys == m'.Keys - {k};
  }
}
