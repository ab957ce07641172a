/** A JavaScript Map: values by key, iterated in insertion order. Re-setting a key keeps its place. */
module JsMaps {
  import opened Common

  predicate Distinct<K(==)>(ks: seq<K>) {
    ks == [] || (ks[0] !in ks[1..] && Distinct(ks[1..]))
  }

  lemma {:induction false} DistinctSnoc<K>(ks: seq<K>, k: K)
    ensures Distinct(ks + [k]) <==> Distinct(ks) && k !in ks
  {
    if ks != [] {
      assert (ks + [k])[1..] == ks[1..] + [k];
      DistinctSnoc(ks[1..], k);
    }
  }

  function Without<K(==)>(ks: seq<K>, k: K): (r: seq<K>)
    ensures forall x :: x in r ==> x in ks && x != k
    ensures forall x :: x in ks && x != k ==> x in r
    ensures k !in ks ==> r == ks
    ensures |r| <= |ks|
  {
    if ks == [] then []
    else if ks[0] == k then Without(ks[1..], k)
    else [ks[0]] + Without(ks[1..], k)
  }

  lemma {:induction false} WithoutDistinct<K>(ks: seq<K>, k: K)
    requires Distinct(ks)
    ensures Distinct(Without(ks, k))
    ensures k in ks ==> |Without(ks, k)| == |ks| - 1
  {
    if ks != [] {
      WithoutDistinct(ks[1..], k);
      assert ks[0] != k ==> Without(ks, k)[1..] == Without(ks[1..], k);
    }
  }

  lemma {:induction false} WithoutAppend<K>(a: seq<K>, b: seq<K>, k: K)
    ensures Without(a + b, k) == Without(a, k) + Without(b, k)
  {
    if a == [] {
      assert a + b == b;
    } else {
      assert (a + b)[1..] == a[1..] + b;
      WithoutAppend(a[1..], b, k);
    }
  }

  datatype JsMap<!K(==), +V> = JsMap(keys: seq<K>, values: map<K, V>)
  {
    predicate Valid() {
      Distinct(keys) && (forall k :: k in keys ==> k in values) && (forall k :: k in values ==> k in keys)
    }

    function Get(k: K): Option<V> {
      if k in values then Some(values[k]) else None
    }

    function Set(k: K, v: V): JsMap<K, V> {
      JsMap(if k in values then keys else keys + [k], values[k := v])
    }

    function Delete(k: K): JsMap<K, V> {
      JsMap(Without(keys, k), values - {k})
    }

    lemma SetValid(k: K, v: V)
      requires Valid()
      ensures Set(k, v).Valid()
    {
      DistinctSnoc(keys, k);
    }

    lemma DeleteValid(k: K)
      requires Valid()
      ensures Delete(k).Valid()
      ensures |Delete(k).keys| == if k in values then |keys| - 1 else |keys|
    {
      WithoutDistinct(keys, k);
    }
  }
}
