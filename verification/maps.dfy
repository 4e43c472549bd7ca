/**
 * Iterating a Go map. The source ranges over a map and appends the entries it
 * keeps to a slice; Go fixes no iteration order, so the model picks the next
 * key arbitrarily and states the result independently of the order chosen.
 */
module Maps {
  import Lists

  /** The keys of `m` whose values satisfy `keep`. */
  ghost function KeysWhere<K, V>(m: map<K, V>, keep: V -> bool): set<K> {
    set k | k in m && keep(m[k])
  }

  /**
   * Collects, in some order, the values of `m` that satisfy `keep`; `order`
   * records which key each collected value came from.
   */
  method CollectValues<K, V>(m: map<K, V>, keep: V -> bool) returns (r: seq<V>, ghost order: seq<K>)
    ensures |order| == |r|
    ensures forall i :: 0 <= i < |order| ==> order[i] in m && r[i] == m[order[i]]
    ensures forall v :: v in r ==> keep(v)
    ensures Lists.Distinct(order)
    ensures forall k :: k in m && keep(m[k]) ==> m[k] in r
    ensures |r| == |KeysWhere(m, keep)|
  {
    r, order := [], [];
    var rest := m.Keys;
    while rest != {}
      invariant rest <= m.Keys
      invariant |order| == |r|
      invariant forall i :: 0 <= i < |order| ==> order[i] in m && order[i] !in rest && r[i] == m[order[i]] && keep(r[i])
      invariant Lists.Distinct(order)
      invariant forall k :: k in m && k !in rest && keep(m[k]) ==> k in order
      invariant (set k | k in order) == KeysWhere(m, keep) - rest
      decreases rest
    {
      var k :| k in rest;
      if keep(m[k]) {
        r, order := r + [m[k]], order + [k];
      }
      rest := rest - {k};
    }
    forall k | k in m && keep(m[k])
      ensures m[k] in r
    {
      var i :| 0 <= i < |order| && order[i] == k;
      assert r[i] == m[k];
    }
    Lists.DistinctCardinality(order);
  }
}
