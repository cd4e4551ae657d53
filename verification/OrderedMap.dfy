/**
 The part of a JavaScript `Map` the modelled code relies on: keys are kept in
 insertion order, and setting an existing key leaves it where it is.
 */
module OrderedMap {
  datatype OrderedMap<K(==,!new), V> = OrderedMap(order: seq<K>, at: map<K, V>) {

    ghost predicate Valid() {
      && NoDuplicates(order)
      && forall k :: k in order <==> k in at
    }

    function Set(k: K, v: V): (m: OrderedMap<K, V>)
      requires Valid()
      ensures m.Valid()
      ensures m.at == at[k := v]
      ensures order <= m.order
      ensures k in at ==> m.order == order
    {
      OrderedMap(if k in at then order else order + [k], at[k := v])
    }

    /** `Map.delete`, which does nothing for an absent key. */
    function Delete(k: K): (m: OrderedMap<K, V>)
      requires Valid()
      ensures m.Valid()
      ensures m.at == at - {k}
      ensures m.order == Without(order, k)
    {
      WithoutIsFilter(order, k);
      OrderedMap(Without(order, k), at - {k})
    }
  }

  function Empty<K(==,!new), V>(): (m: OrderedMap<K, V>)
    ensures m.Valid()
  {
    OrderedMap([], map[])
  }

  ghost predicate NoDuplicates<T>(s: seq<T>) {
    forall i, j :: 0 <= i < j < |s| ==> s[i] != s[j]
  }

  lemma ConcatNoDuplicates<T(!new)>(a: seq<T>, b: seq<T>)
    requires NoDuplicates(a) && NoDuplicates(b)
    requires forall x :: x in a ==> x !in b
    ensures NoDuplicates(a + b)
  {
    forall i, j | 0 <= i < j < |a + b|
      ensures (a + b)[i] != (a + b)[j]
    {
      if i < |a| <= j {
        assert a[i] in a && b[j - |a|] in b;
      }
    }
  }

  function Without<T(==)>(s: seq<T>, x: T): seq<T> {
    if s == [] then []
    else if s[0] == x then Without(s[1..], x)
    else [s[0]] + Without(s[1..], x)
  }

  lemma {:induction false} WithoutIsFilter<T(!new)>(s: seq<T>, x: T)
    ensures forall y :: y in Without(s, x) <==> y in s && y != x
    ensures NoDuplicates(s) ==> NoDuplicates(Without(s, x))
  {
    if s == [] {
    } else {
      WithoutIsFilter(s[1..], x);
      assert s == [s[0]] + s[1..];
      if NoDuplicates(s) {
        assert s[0] !in s[1..];
        assert s[0] !in Without(s[1..], x);
      }
    }
  }

  /** The number of keys is the length of the key order. */
  lemma {:induction false} SizeIsOrder<T(!new)>(s: seq<T>, keys: set<T>)
    requires NoDuplicates(s)
    requires forall k :: k in s <==> k in keys
    ensures |s| == |keys|
  {
    if s == [] {
      assert keys == {};
    } else {
      assert s == [s[0]] + s[1..];
      SizeIsOrder(s[1..], keys - {s[0]});
    }
  }
}
