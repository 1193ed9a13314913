/** What several services do with maps: sums of sizes, and the scan for an oldest entry. */
module Maps {
  /** The sum of the sizes of all values, taken in any order. */
  ghost function Sum<K, V>(m: map<K, V>, size: V -> nat): nat {
    if m == map[] then 0 else var k :| k in m; size(m[k]) + Sum(m - {k}, size)
  }

  /** The sum does not depend on the order in which the keys are taken. */
  lemma {:induction false} SumWithout<K, V>(m: map<K, V>, size: V -> nat, k: K)
    requires k in m
    ensures Sum(m, size) == size(m[k]) + Sum(m - {k}, size)
    decreases |m|
  {
    var j :| j in m && Sum(m, size) == size(m[j]) + Sum(m - {j}, size);
    if j != k {
      SumWithout(m - {j}, size, k);
      SumWithout(m - {k}, size, j);
      assert m - {j} - {k} == m - {k} - {j};
    }
  }

  lemma SumUpdated<K, V>(m: map<K, V>, size: V -> nat, k: K, v: V)
    ensures Sum(m[k := v], size) == Sum(m, size) - (if k in m then size(m[k]) else 0) + size(v)
  {
    SumWithout(m[k := v], size, k);
    if k in m {
      SumWithout(m, size, k);
      assert m[k := v] - {k} == m - {k};
    } else {
      assert m[k := v] - {k} == m;
    }
  }

  lemma CountUpdated<K, V>(m: map<K, V>, k: K, v: V)
    ensures |m[k := v]| == if k in m then |m| else |m| + 1
  {
    assert m[k := v].Keys == m.Keys + {k};
    assert |m[k := v].Keys| == |m[k := v]| && |m.Keys| == |m|;
    if k in m { assert m[k := v].Keys == m.Keys; }
  }

  lemma Removed<K, V>(m: map<K, V>, size: V -> nat, k: K)
    ensures |m - {k}| <= |m| && Sum(m - {k}, size) <= Sum(m, size)
  {
    assert (m - {k}).Keys == m.Keys - {k};
    assert |(m - {k}).Keys| == |m - {k}| && |m.Keys| == |m|;
    if k in m { SumWithout(m, size, k); } else { assert m - {k} == m; }
  }

  /** No entry was seen before that of `k`. */
  ghost predicate Oldest<V>(m: map<string, V>, seen: V -> int, k: string) {
    k in m && forall x | x in m :: seen(m[k]) <= seen(m[x])
  }

  /** The scan for the entry to evict, in any order; the empty key stands for "none yet". */
  method FindOldest<V>(m: map<string, V>, seen: V -> int) returns (oldestKey: string)
    requires m != map[] && "" !in m
    ensures Oldest(m, seen, oldestKey)
  {
    oldestKey := "";
    var oldest := 0;
    var todo := m.Keys;
    while todo != {}
      invariant todo <= m.Keys
      invariant oldestKey == "" ==> todo == m.Keys
      invariant oldestKey != "" ==> oldestKey in m && oldest == seen(m[oldestKey])
      invariant oldestKey != "" ==> forall x | x in m && x !in todo :: oldest <= seen(m[x])
      decreases |todo|
    {
      var key :| key in todo;
      todo := todo - {key};
      if oldestKey == "" || seen(m[key]) < oldest {
        oldestKey, oldest := key, seen(m[key]);
      }
    }
  }
}
