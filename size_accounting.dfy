/** The running size total of a size-limited cache: the sum of the sizes of the
    entries in the table, and the capacity check made on commit. */
module SizeAccounting {
  import opened Wrappers

  /** The sum of `m`'s values over the keys in `keys`. */
  ghost function SumOver<K>(m: map<K, int>, keys: set<K>): int
    requires keys <= m.Keys
    decreases keys
  {
    if keys == {} then 0
    else
      var k :| k in keys;
      m[k] + SumOver(m, keys - {k})
  }

  /** The sum of the values of a map (the sizes of the entries in the table). */
  ghost function SumValues<K>(m: map<K, int>): int
  {
    SumOver(m, m.Keys)
  }

  /** Taking any one key out of the sum leaves the sum of the rest. */
  lemma {:induction false} SumOverRemove<K>(m: map<K, int>, keys: set<K>, k: K)
    requires keys <= m.Keys && k in keys
    ensures SumOver(m, keys) == m[k] + SumOver(m, keys - {k})
    decreases keys
  {
    var j :| j in keys && SumOver(m, keys) == m[j] + SumOver(m, keys - {j});
    if j != k {
      SumOverRemove(m, keys - {j}, k);
      SumOverRemove(m, keys - {k}, j);
      assert keys - {j} - {k} == keys - {k} - {j};
    }
  }

  /** The sum over `keys` reads only the values at `keys`. */
  lemma {:induction false} SumOverAgree<K>(m: map<K, int>, n: map<K, int>, keys: set<K>)
    requires keys <= m.Keys && keys <= n.Keys
    requires forall k | k in keys :: m[k] == n[k]
    ensures SumOver(m, keys) == SumOver(n, keys)
    decreases keys
  {
    if keys != {} {
      var j :| j in keys && SumOver(m, keys) == m[j] + SumOver(m, keys - {j});
      SumOverRemove(n, keys, j);
      SumOverAgree(m, n, keys - {j});
    }
  }

  /** Taking key `k` out of the table takes its value out of the sum. */
  lemma SumRemove<K>(m: map<K, int>, k: K)
    requires k in m
    ensures SumValues(m) == m[k] + SumValues(m - {k})
  {
    SumOverRemove(m, m.Keys, k);
    assert (m - {k}).Keys == m.Keys - {k};
    SumOverAgree(m, m - {k}, m.Keys - {k});
  }

  /** Storing `v` under `k`, whether `k` was there before or not. */
  lemma SumUpdate<K>(m: map<K, int>, k: K, v: int)
    ensures SumValues(m[k := v]) == v + SumValues(m - {k})
  {
    SumRemove(m[k := v], k);
    assert m[k := v] - {k} == m - {k};
  }

  /** A sum of non-negative values is non-negative. */
  lemma {:induction false} SumOverNonNegative<K>(m: map<K, int>, keys: set<K>)
    requires keys <= m.Keys
    requires forall k | k in keys :: m[k] >= 0
    ensures SumOver(m, keys) >= 0
    decreases keys
  {
    if keys != {} {
      var j :| j in keys && SumOver(m, keys) == m[j] + SumOver(m, keys - {j});
      SumOverNonNegative(m, keys - {j});
    }
  }

  /** UpdateCacheSizeExceedsCapacity's test: with a limit, the entry does not fit when the
      new total would be negative or above the limit; without one it always fits. */
  predicate ExceedsCapacity(limit: Option<nat>, total: int, entrySize: int)
  {
    limit.Some? && !(0 <= total + entrySize <= limit.value)
  }
}
