/**
 * A JavaScript `Map`: a key/value table that remembers the order in which
 * its keys were first inserted. Setting a key that is already present
 * replaces its value in place; deleting a key drops it from the order, so
 * that inserting it again puts it last (section 24.1 of ECMA-262).
 */
module OrderedMaps {
  import opened Wrappers

  /** No element of `s` occurs twice. */
  ghost predicate Distinct<K>(s: seq<K>) {
    forall i, j :: 0 <= i < j < |s| ==> s[i] != s[j]
  }

  /** The elements of `s`, as a set. */
  ghost function Elements<K>(s: seq<K>): set<K> {
    set x | x in s
  }

  /** The position of the first occurrence of `x` in `s`. */
  function IndexOf<K(==)>(s: seq<K>, x: K): (i: nat)
    requires x in s
    ensures i < |s| && s[i] == x
    ensures forall j :: 0 <= j < i ==> s[j] != x
  {
    if s[0] == x then 0 else 1 + IndexOf(s[1..], x)
  }

  /** Removing position `i` from a sequence without repetitions removes exactly the element `s[i]`. */
  lemma RemoveAt<K>(s: seq<K>, i: nat)
    requires Distinct(s) && i < |s|
    ensures var r := s[..i] + s[i + 1..];
      && |r| == |s| - 1
      && (forall j :: 0 <= j < |r| ==> r[j] == s[if j < i then j else j + 1])
      && Distinct(r)
      && (forall x :: x in r <==> x in s && x != s[i])
  {
  }

  /** A sequence without repetitions has as many elements as its set of elements. */
  lemma {:induction false} DistinctSize<K>(s: seq<K>)
    requires Distinct(s)
    ensures |Elements(s)| == |s|
  {
    if s != [] {
      assert Distinct(s[1..]);
      DistinctSize(s[1..]);
      assert Elements(s) == {s[0]} + Elements(s[1..]);
      assert s[0] !in Elements(s[1..]);
    }
  }

  datatype OrderedMap<K(==,!new), V(==,!new)> = OrderedMap(keys: seq<K>, entries: map<K, V>) {

    /** `keys` lists every key of `entries` exactly once, in insertion order. */
    ghost predicate Valid() {
      && Distinct(keys)
      && (forall k :: k in entries <==> k in keys)
    }

    /** `map.get(k)`, with `None` for a missing key. */
    function Get(k: K): Option<V> {
      if k in entries then Some(entries[k]) else None
    }

    /** `map.has(k)`. */
    predicate Has(k: K) {
      k in entries
    }

    /** The number of live keys, which is the length of the insertion order and so the length of `readAll()`. */
    function Size(): (n: nat)
      requires Valid()
      ensures n == |keys|
    {
      assert entries.Keys == Elements(keys);
      DistinctSize(keys);
      |entries|
    }

    /** `Array.from(map.values())`: the values, one per key, in key insertion order. */
    function Values(): (vs: seq<V>)
      requires Valid()
      ensures |vs| == |keys|
      ensures forall i :: 0 <= i < |keys| ==> vs[i] == entries[keys[i]]
    {
      seq(|keys|, i requires 0 <= i < |keys| => entries[keys[i]])
    }

    /**
     * `map.set(k, v)`: afterwards `k` maps to `v`, every other key keeps its
     * value, and the insertion order grows by `k` only if `k` was new.
     */
    function Set(k: K, v: V): (m: OrderedMap<K, V>)
      requires Valid()
      ensures m.Valid()
      ensures m.Get(k) == Some(v)
      ensures forall k' :: k' != k ==> m.Get(k') == Get(k')
      ensures m.keys == if Has(k) then keys else keys + [k]
    {
      OrderedMap(if k in entries then keys else keys + [k], entries[k := v])
    }

    /**
     * `map.delete(k)`: afterwards `k` is absent, every other key keeps its
     * value, and the other keys keep their relative order.
     */
    function Delete(k: K): (m: OrderedMap<K, V>)
      requires Valid()
      ensures m.Valid()
      ensures m.Get(k) == None
      ensures forall k' :: k' != k ==> m.Get(k') == Get(k')
      ensures !Has(k) ==> m == this
      ensures Has(k) ==> m.keys == keys[..IndexOf(keys, k)] + keys[IndexOf(keys, k) + 1..]
    {
      if k in entries then
        var i := IndexOf(keys, k);
        var ks := keys[..i] + keys[i + 1..];
        RemoveAt(keys, i);
        OrderedMap(ks, entries - {k})
      else
        this
    }
  }

  /** The empty `new Map()`. */
  function Empty<K(==,!new), V(==,!new)>(): (m: OrderedMap<K, V>)
    ensures m.Valid() && m.Size() == 0
    ensures forall k :: m.Get(k) == None
  {
    OrderedMap([], map[])
  }

  /** `values()` holds every stored value, one per key, and nothing else. */
  lemma ValuesExact<K(!new), V(!new)>(m: OrderedMap<K, V>)
    requires m.Valid()
    ensures |m.Values()| == m.Size() == |m.entries|
    ensures forall v :: v in m.Values() <==> v in m.entries.Values
  {
  }

  /** `map.get(k)` of a present key is the value `values()` lists at that key's position in the insertion order. */
  lemma GetValues<K(!new), V(!new)>(m: OrderedMap<K, V>, k: K)
    requires m.Valid() && m.Has(k)
    ensures m.Get(k) == Some(m.Values()[IndexOf(m.keys, k)])
  {
  }

  /** Setting a key that is new appends its value at the end of `values()`. */
  lemma SetNewValues<K(!new), V(!new)>(m: OrderedMap<K, V>, k: K, v: V)
    requires m.Valid() && !m.Has(k)
    ensures m.Set(k, v).Values() == m.Values() + [v]
  {
  }

  /** Setting a key that is present replaces its value where it stands in `values()`. */
  lemma SetExistingValues<K(!new), V(!new)>(m: OrderedMap<K, V>, k: K, v: V)
    requires m.Valid() && m.Has(k)
    ensures m.Set(k, v).Values() == m.Values()[IndexOf(m.keys, k) := v]
  {
  }

  /** Deleting a present key removes exactly its value from `values()`, keeping the order of the rest. */
  lemma DeleteValues<K(!new), V(!new)>(m: OrderedMap<K, V>, k: K)
    requires m.Valid() && m.Has(k)
    ensures var i := IndexOf(m.keys, k);
      m.Delete(k).Values() == m.Values()[..i] + m.Values()[i + 1..]
  {
  }
}
