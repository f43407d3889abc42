/** The JavaScript Map: values by key, iterated in the order the keys were first set. */
module JsMap {
  import opened Options

  datatype Map<K(==, !new), V> = Map(keys: seq<K>, vals: map<K, V>) {

    ghost predicate Valid() {
      && (forall k :: k in keys <==> k in vals)
      && forall i, j :: 0 <= i < j < |keys| ==> keys[i] != keys[j]
    }

    predicate Has(k: K) {
      k in vals
    }

    function Get(k: K): Option<V> {
      if k in vals then Some(vals[k]) else None
    }

    function Size(): nat {
      |keys|
    }

    /** Setting a present key keeps its place, a new one goes last. */
    function Set(k: K, v: V): Map<K, V> {
      Map(if k in vals then keys else keys + [k], vals[k := v])
    }

    function Delete(k: K): Map<K, V> {
      Map(Without(keys, k), vals - {k})
    }

    lemma SetValid(k: K, v: V)
      requires Valid()
      ensures Set(k, v).Valid()
    {
    }

    lemma DeleteValid(k: K)
      requires Valid()
      ensures Delete(k).Valid()
    {
      WithoutExact(keys, k);
      forall x ensures x in Delete(k).keys <==> x in Delete(k).vals {
      }
    }
  }

  function Empty<K(!new), V>(): Map<K, V> {
    Map([], map[])
  }

  function Without<K(==)>(keys: seq<K>, k: K): seq<K> {
    if keys == [] then []
    else if keys[0] == k then Without(keys[1..], k)
    else [keys[0]] + Without(keys[1..], k)
  }

  lemma {:induction false} WithoutExact<K(!new)>(keys: seq<K>, k: K)
    requires forall i, j :: 0 <= i < j < |keys| ==> keys[i] != keys[j]
    ensures var r := Without(keys, k);
            && (forall x :: x in r <==> x in keys && x != k)
            && (forall i, j :: 0 <= i < j < |r| ==> r[i] != r[j])
  {
    if keys != [] {
      var rest := Without(keys[1..], k);
      WithoutExact(keys[1..], k);
      assert forall x :: x in keys <==> x == keys[0] || x in keys[1..];
      assert forall x :: x in [keys[0]] + rest <==> x == keys[0] || x in rest;
      assert forall i :: 0 < i < |keys| ==> keys[i] != keys[0];
      assert keys[0] !in keys[1..];
    }
  }

  lemma {:induction false} WithoutShorter<K>(keys: seq<K>, k: K)
    ensures |Without(keys, k)| <= |keys| && (k in keys ==> |Without(keys, k)| < |keys|)
  {
    if keys != [] {
      WithoutShorter(keys[1..], k);
    }
  }

  lemma {:induction false} WithoutAbsent<K>(keys: seq<K>, k: K)
    requires k !in keys
    ensures Without(keys, k) == keys
  {
    if keys != [] {
      WithoutAbsent(keys[1..], k);
    }
  }
}
