/** Sums over the values of a map, and the key with the smallest value. */
module MapFacts {

  ghost function Total<K(!new)>(m: map<K, nat>): nat {
    if m.Keys == {} then 0
    else
      var k :| k in m.Keys;
      m[k] + Total(m - {k})
  }

  /** Any key may be taken out first. */
  lemma {:induction false} TotalTake<K(!new)>(m: map<K, nat>, k: K)
    requires k in m
    ensures Total(m) == m[k] + Total(m - {k})
    decreases |m|
  {
    var first :| first in m.Keys && Total(m) == m[first] + Total(m - {first});
    if first != k {
      TotalTake(m - {first}, k);
      TotalTake(m - {k}, first);
      assert (m - {first}) - {k} == (m - {k}) - {first};
    }
  }

  lemma TotalPut<K(!new)>(m: map<K, nat>, k: K, v: nat)
    ensures Total(m[k := v]) == Total(m - {k}) + v
    ensures k in m ==> Total(m[k := v]) + m[k] == Total(m) + v
    ensures k !in m ==> Total(m[k := v]) == Total(m) + v
  {
    TotalTake(m[k := v], k);
    assert m[k := v] - {k} == m - {k};
    if k in m {
      TotalTake(m, k);
    } else {
      assert m - {k} == m;
    }
  }

  lemma {:induction false} TotalSum<K(!new)>(a: map<K, nat>, b: map<K, nat>, sum: map<K, nat>)
    requires a.Keys == b.Keys == sum.Keys
    requires forall k :: k in a ==> sum[k] == a[k] + b[k]
    ensures Total(sum) == Total(a) + Total(b)
    decreases |sum|
  {
    if sum.Keys != {} {
      var k :| k in sum.Keys;
      TotalTake(a, k);
      TotalTake(b, k);
      TotalTake(sum, k);
      TotalSum(a - {k}, b - {k}, sum - {k});
    }
  }

  ghost predicate Injective<K(!new)>(m: map<K, nat>) {
    forall j, k :: j in m && k in m && m[j] == m[k] ==> j == k
  }

  lemma InjectiveMeans<K(!new)>(m: map<K, nat>, j: K, k: K)
    requires Injective(m) && j in m && k in m
    ensures m[j] == m[k] ==> j == k
  {
  }

  lemma InjectivePut<K(!new)>(m: map<K, nat>, k: K, v: nat)
    requires Injective(m)
    requires forall j :: j in m && m[j] == v ==> j == k
    ensures Injective(m[k := v])
  {
    var put := m[k := v];
    forall i, j | i in put && j in put && put[i] == put[j] ensures i == j
    {
      assert i != k && j != k ==> m[i] == m[j];
    }
  }

  lemma InjectiveDrop<K(!new)>(m: map<K, nat>, gone: set<K>)
    requires Injective(m)
    ensures Injective(m - gone)
  {
    var left := m - gone;
    forall i, j | i in left && j in left && left[i] == left[j] ensures i == j
    {
      assert m[i] == m[j];
    }
  }

  lemma TotalEmpty<K(!new)>(m: map<K, nat>)
    requires m.Keys == {}
    ensures Total(m) == 0
  {
  }

  ghost predicate IsOldest<K(!new)>(m: map<K, nat>, k: K) {
    k in m && forall j :: j in m ==> m[k] <= m[j]
  }

  ghost function Oldest<K(!new)>(m: map<K, nat>): (k: K)
    requires m.Keys != {}
    ensures IsOldest(m, k)
  {
    SomeOldest(m);
    var k :| IsOldest(m, k);
    k
  }

  lemma {:induction false} SomeOldest<K(!new)>(m: map<K, nat>)
    requires m.Keys != {}
    ensures exists k :: IsOldest(m, k)
    decreases |m|
  {
    var k :| k in m.Keys;
    assert forall j :: j in m ==> j == k || j in m - {k};
    if (m - {k}).Keys == {} {
      assert IsOldest(m, k);
    } else {
      SomeOldest(m - {k});
      var j :| IsOldest(m - {k}, j);
      var o := if m[k] <= m[j] then k else j;
      assert IsOldest(m, o);
    }
  }

  /** Walk over the keys for the smallest value. */
  method FindOldest<K(==,!new)>(m: map<K, nat>) returns (k: K)
    requires m.Keys != {}
    ensures IsOldest(m, k)
    ensures Injective(m) ==> k == Oldest(m)
  {
    var rest := m.Keys;
    k :| k in rest;
    rest := rest - {k};
    while rest != {}
      invariant k in m && rest <= m.Keys
      invariant forall j :: j in m && j !in rest ==> m[k] <= m[j]
      decreases rest
    {
      var j :| j in rest;
      rest := rest - {j};
      if m[j] < m[k] {
        k := j;
      }
    }
  }

  /** Walk over the keys adding the values up. */
  method SumUp<K(==,!new)>(m: map<K, nat>) returns (sum: nat)
    ensures sum == Total(m)
  {
    var rest := m;
    sum := 0;
    while rest.Keys != {}
      invariant sum + Total(rest) == Total(m)
      decreases |rest|
    {
      var k :| k in rest.Keys;
      TotalTake(rest, k);
      sum := sum + rest[k];
      rest := rest - {k};
    }
  }
}
