/** Frequency tables: the `std::unordered_map<key, uint32_t>` counters the
    splitter fills with a `find`, then either `++` on the found entry or an
    insertion of 1. */
module Frequency {

  /** One counting step: increment the count of k, or insert k with count 1. */
  function AddCount<K>(m: map<K, nat>, k: K): (m': map<K, nat>)
    ensures m'.Keys == m.Keys + {k}
    ensures m'[k] == (if k in m then m[k] else 0) + 1
    ensures forall j :: j in m && j != k ==> m'[j] == m[j]
  {
    if k in m then m[k := m[k] + 1] else m[k := 1]
  }

  /** The count recorded for k, 0 when k was never seen. */
  function CountOf<K>(m: map<K, nat>, k: K): nat
  {
    if k in m then m[k] else 0
  }

  /** The sum of all counts in a table. */
  ghost function SumCounts<K>(m: map<K, nat>): nat
    decreases |m|
  {
    if m == map[] then 0
    else
      var k :| k in m;
      m[k] + SumCounts(m - {k})
  }

  /** The sum does not depend on which key is taken out first. */
  lemma {:induction false} SumCountsRemove<K>(m: map<K, nat>, k: K)
    requires k in m
    ensures SumCounts(m) == m[k] + SumCounts(m - {k})
    decreases |m|
  {
    var j :| j in m && SumCounts(m) == m[j] + SumCounts(m - {j});
    if j != k {
      var mj, mk := m - {j}, m - {k};
      assert |mj| < |m| by { assert mj.Keys == m.Keys - {j}; }
      assert |mk| < |m| by { assert mk.Keys == m.Keys - {k}; }
      SumCountsRemove(mj, k);
      SumCountsRemove(mk, j);
      assert mj - {k} == mk - {j};
    }
  }

  /** Each counting step adds exactly one to the sum of counts. */
  lemma SumCountsAddCount<K>(m: map<K, nat>, k: K)
    ensures SumCounts(AddCount(m, k)) == SumCounts(m) + 1
  {
    var m' := AddCount(m, k);
    SumCountsRemove(m', k);
    assert m' - {k} == m - {k};
    if k in m {
      SumCountsRemove(m, k);
    } else {
      assert m - {k} == m;
    }
  }

  /** Each counting step adds at most one key. */
  lemma SizeAddCount<K>(m: map<K, nat>, k: K)
    ensures |AddCount(m, k)| == |m| + (if k in m then 0 else 1)
  {
    var m' := AddCount(m, k);
    if k !in m {
      assert m'.Keys == m.Keys + {k};
      assert |m'.Keys| == |m.Keys| + 1;
    } else {
      assert m'.Keys == m.Keys;
    }
  }
}
