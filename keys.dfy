/** Walking the keys of a hash map once each, in an order the model leaves open. */
module Keys {

  /** No element occurs twice. */
  predicate Distinct<K(==)>(ks: seq<K>) {
    forall i, j :: 0 <= i < j < |ks| ==> ks[i] != ks[j]
  }

  /**
    * The keys of `m` in iteration order: each key exactly once. A hash map's
    * order is unspecified, so any order is allowed.
    */
  method Enumerate<K(==), V>(m: map<K, V>) returns (ks: seq<K>)
    ensures |ks| == |m|
    ensures Distinct(ks)
    ensures forall k :: k in m <==> k in ks
  {
    ks := [];
    var rest := m.Keys;
    while rest != {}
      invariant rest <= m.Keys
      invariant forall k :: k in m <==> k in rest || k in ks
      invariant forall k :: k in ks ==> k !in rest
      invariant Distinct(ks)
      invariant |ks| + |rest| == |m|
      decreases rest
    {
      var k :| k in rest;
      ks := ks + [k];
      rest := rest - {k};
    }
  }
}
