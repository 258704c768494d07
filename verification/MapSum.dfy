/** Finite maps read as ledgers: a missing key counts as zero. */
module MapSum {

  function Get<K>(m: map<K, int>, k: K): int {
    if k in m then m[k] else 0
  }

  /** Pointwise sum of two ledgers. */
  function Add<K>(a: map<K, int>, b: map<K, int>): map<K, int> {
    map k | k in a.Keys + b.Keys :: Get(a, k) + Get(b, k)
  }

  ghost function Sum<K>(m: map<K, int>): int {
    if m == map[] then 0 else
      var k :| k in m;
      m[k] + Sum(m - {k})
  }

  /** The sum does not depend on the key the definition happens to take first. */
  lemma {:induction false} SumTake<K>(m: map<K, int>, k: K)
    requires k in m
    ensures Sum(m) == m[k] + Sum(m - {k})
    decreases |m|
  {
    var j :| j in m && Sum(m) == m[j] + Sum(m - {j});
    if j != k {
      SumTake(m - {j}, k);
      SumTake(m - {k}, j);
      assert m - {j} - {k} == m - {k} - {j};
    }
  }

  lemma SumPut<K>(m: map<K, int>, k: K, v: int)
    ensures Sum(m[k := v]) == Sum(m) - Get(m, k) + v
  {
    SumTake(m[k := v], k);
    assert m[k := v] - {k} == m - {k};
    if k in m {
      SumTake(m, k);
    } else {
      assert m - {k} == m;
    }
  }

  lemma AddNothing<K>(a: map<K, int>)
    ensures Add(a, map[]) == a
  {
    var none: map<K, int> := map[];
    assert Add(a, none).Keys == a.Keys;
    forall k | k in a ensures Add(a, none)[k] == a[k] {
    }
  }

  lemma AddTake<K>(a: map<K, int>, b: map<K, int>, k: K)
    requires k in b
    ensures Add(a, b) == Add(a, b - {k})[k := Get(a, k) + b[k]]
    ensures Get(Add(a, b - {k}), k) == Get(a, k)
  {
    var lhs, rhs := Add(a, b), Add(a, b - {k})[k := Get(a, k) + b[k]];
    assert lhs.Keys == rhs.Keys;
    forall j | j in lhs ensures lhs[j] == rhs[j] {
    }
  }

  lemma {:induction false} SumAdd<K>(a: map<K, int>, b: map<K, int>)
    ensures Sum(Add(a, b)) == Sum(a) + Sum(b)
    decreases b.Keys
  {
    if b == map[] {
      AddNothing(a);
      assert b == map[];
    } else {
      var k :| k in b;
      AddTake(a, b, k);
      SumAdd(a, b - {k});
      SumTake(b, k);
      SumPut(Add(a, b - {k}), k, Get(a, k) + b[k]);
    }
  }

  /** Ledgers that read the same add up to the same, whatever zeros they store. */
  lemma SumSame<K>(a: map<K, int>, b: map<K, int>)
    requires forall k :: Get(a, k) == Get(b, k)
    ensures Sum(a) == Sum(b)
  {
    SumGrown(a, b.Keys);
    SumGrown(b, a.Keys);
    assert Grown(a, b.Keys) == Grown(b, a.Keys) by {
      forall k | k in a.Keys + b.Keys ensures Grown(a, b.Keys)[k] == Grown(b, a.Keys)[k] {
        assert Get(a, k) == Get(b, k);
      }
    }
  }

  function Grown<K>(m: map<K, int>, keys: set<K>): map<K, int> {
    map k | k in m.Keys + keys :: Get(m, k)
  }

  lemma {:induction false} SumGrown<K>(m: map<K, int>, keys: set<K>)
    ensures Sum(Grown(m, keys)) == Sum(m)
    decreases keys
  {
    if keys == {} {
      assert Grown(m, keys) == m;
    } else {
      var k :| k in keys;
      SumGrown(m, keys - {k});
      SumPut(Grown(m, keys - {k}), k, Get(m, k));
      assert Grown(m, keys) == Grown(m, keys - {k})[k := Get(m, k)];
    }
  }

  /** Raising entries, or adding non-negative ones, never lowers the sum. */
  lemma {:induction false} SumMonotone<K>(a: map<K, int>, b: map<K, int>)
    requires forall k <- b :: Get(a, k) <= b[k]
    requires a.Keys <= b.Keys
    ensures Sum(a) <= Sum(b)
    decreases |b|
  {
    if b == map[] {
      assert a == map[];
    } else {
      var k :| k in b;
      SumTake(b, k);
      SumMonotone(a - {k}, b - {k});
      if k in a {
        SumTake(a, k);
      } else {
        assert a - {k} == a;
      }
    }
  }
}
