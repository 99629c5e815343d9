/** Counting the entries of a map. */
module Counting {

  ghost function Hits<K, V>(m: map<K, V>, p: V -> bool): set<K> {
    set k | k in m && p(m[k])
  }

  ghost function Count<K, V>(m: map<K, V>, p: V -> bool): nat {
    |Hits(m, p)|
  }

  ghost function Unit(b: bool): nat {
    if b then 1 else 0
  }

  lemma HitsUpdate<K, V>(m: map<K, V>, k: K, v: V, p: V -> bool)
    ensures Hits(m[k := v], p) - {k} == Hits(m, p) - {k}
    ensures k in Hits(m, p) <==> k in m && p(m[k])
    ensures k in Hits(m[k := v], p) <==> p(v)
  {
    var m' := m[k := v];
    forall j | j != k ensures j in Hits(m', p) <==> j in Hits(m, p) {
      assert j in m' <==> j in m;
    }
  }

  /** Changing one entry changes the count by that entry. */
  lemma CountUpdate<K, V>(m: map<K, V>, k: K, v: V, p: V -> bool)
    ensures Count(m[k := v], p) + Unit(k in m && p(m[k])) == Count(m, p) + Unit(p(v))
  {
    hide Hits;
    HitsUpdate(m, k, v, p);
    WithOne(Hits(m, p), k);
    WithOne(Hits(m[k := v], p), k);
  }

  /** One entry taken apart from the others. */
  lemma CountWithout<K, V>(m: map<K, V>, k: K, p: V -> bool)
    requires k in m
    ensures Count(m, p) == Count(m - {k}, p) + Unit(p(m[k]))
  {
    assert Hits(m - {k}, p) == Hits(m, p) - {k};
    WithOne(Hits(m, p), k);
  }

  lemma WithOne<K>(s: set<K>, k: K)
    ensures |s| == |s - {k}| + Unit(k in s)
  {
    if k in s {
      assert s == s - {k} + {k};
    } else {
      assert s == s - {k};
    }
  }

  lemma CountZero<K, V>(m: map<K, V>, p: V -> bool)
    ensures Count(m, p) == 0 <==> forall k :: k in m ==> !p(m[k])
  {
    if forall k :: k in m ==> !p(m[k]) {
      assert Hits(m, p) == {};
    } else {
      var k :| k in m && p(m[k]);
      assert k in Hits(m, p);
    }
  }

  lemma CountAtMost<K, V>(m: map<K, V>, p: V -> bool)
    ensures Count(m, p) <= |m.Keys|
  {
    SubsetSize(Hits(m, p), m.Keys);
  }

  lemma {:induction false} SubsetSize<K>(small: set<K>, big: set<K>)
    requires small <= big
    ensures |small| <= |big|
  {
    if small != {} {
      var k :| k in small;
      SubsetSize(small - {k}, big - {k});
    }
  }

  /** A map whose keys are below `n` has at most `n` of them. */
  lemma {:induction false} FewKeys(keys: set<nat>, n: nat)
    requires forall k :: k in keys ==> k < n
    ensures |keys| <= n
  {
    if n == 0 {
      assert keys == {};
    } else {
      FewKeys(keys - {n - 1}, n - 1);
      WithOne(keys, n - 1);
    }
  }
}
