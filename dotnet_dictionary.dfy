/**
 * The parts of `System.Collections.Generic.Dictionary<TKey, TValue>` that the
 * dictionary extensions call: a hash map whose enumeration lists its keys in
 * insertion order (exactly so for a dictionary nothing was ever removed from,
 * which is all this model builds).
 */
module DotNetDictionary {
  import opened Results
  import opened Sequences

  /** The keys of `order` that `m` does not hold, in order. */
  function Absent<K(!new), V>(order: seq<K>, m: map<K, V>): (r: seq<K>)
    ensures forall k :: k in r <==> k in order && k !in m
    ensures Distinct(order) ==> Distinct(r)
  {
    if order == [] then []
    else
      var init, last := order[..|order| - 1], order[|order| - 1];
      assert order == init + [last];
      var r := Absent(init, m);
      DistinctSnoc(r, last);
      if last in m then r else r + [last]
  }

  /** The keys of `order` that `m` holds, in order. */
  function Present<K(!new), V>(order: seq<K>, m: map<K, V>): (r: seq<K>)
    ensures forall k :: k in r <==> k in order && k in m
  {
    if order == [] then []
    else
      var init, last := order[..|order| - 1], order[|order| - 1];
      assert order == init + [last];
      var r := Present(init, m);
      if last in m then r + [last] else r
  }

  /** `m` cut down to the keys listed in `keys`. */
  function Restrict<K(!new), V>(m: map<K, V>, keys: seq<K>): (r: map<K, V>)
    ensures forall k :: k in r <==> k in keys && k in m
    ensures forall k :: k in r ==> r[k] == m[k]
  {
    map k | k in m && k in keys :: m[k]
  }

  /** No keys let no pairs through. */
  lemma RestrictNone<K(!new), V>(m: map<K, V>, keys: seq<K>)
    ensures keys[..0] == [] && Restrict(m, keys[..0]) == map[]
    ensures forall original: map<K, V> {:trigger original + Restrict(m, keys[..0])} :: original + Restrict(m, keys[..0]) == original && Restrict(m, keys[..0]) + original == original
  {
  }

  /** All the keys of `m`, listed, let all of `m` through. */
  lemma RestrictAll<K(!new), V>(m: map<K, V>, keys: seq<K>)
    requires forall k :: k in m <==> k in keys
    ensures Restrict(m, keys) == m
  {
  }

  /** One more key of `keys` lets one more pair of `m` through. */
  lemma RestrictStep<K(!new), V>(m: map<K, V>, keys: seq<K>, i: nat)
    requires i < |keys| && keys[i] in m
    ensures Restrict(m, keys[..i + 1]) == Restrict(m, keys[..i])[keys[i] := m[keys[i]]]
  {
    assert keys[..i + 1][..i] == keys[..i];
  }

  /** One more key of `order` is listed as absent exactly when `m` lacks it. */
  lemma AbsentStep<K(!new), V>(order: seq<K>, m: map<K, V>, i: nat)
    requires i < |order|
    ensures Absent(order[..i + 1], m) == Absent(order[..i], m) + (if order[i] in m then [] else [order[i]])
  {
    assert order[..i + 1][..i] == order[..i];
  }

  class Dictionary<K(==, !new), V> {
    /** The keys in enumeration order. */
    var keys: seq<K>
    var items: map<K, V>

    ghost predicate Valid()
      reads this
    {
      Distinct(keys) && forall k :: k in items <==> k in keys
    }

    /** `new Dictionary<TKey, TValue>()`. */
    constructor ()
      ensures Valid() && keys == [] && items == map[]
    {
      keys, items := [], map[];
    }

    function ContainsKey(key: K): (b: bool)
      reads this
      ensures b <==> key in items
    {
      key in items
    }

    /** `Add(key, value)`: `ArgumentException` when the key is present, otherwise the pair is appended. */
    method Add(key: K, value: V) returns (o: Outcome)
      requires Valid()
      modifies this
      ensures Valid()
      ensures old(key in items) ==> o == Raised(ArgumentException) && keys == old(keys) && items == old(items)
      ensures old(key !in items) ==> o == Completed && keys == old(keys) + [key] && items == old(items)[key := value]
    {
      if key in items {
        return Raised(ArgumentException);
      }
      DistinctSnoc(keys, key);
      keys, items := keys + [key], items[key := value];
      return Completed;
    }

    /** The indexer's setter: replaces the value in place when the key is present, otherwise appends the pair. */
    method Set(key: K, value: V)
      requires Valid()
      modifies this
      ensures Valid()
      ensures keys == if old(key in items) then old(keys) else old(keys) + [key]
      ensures items == old(items)[key := value]
    {
      if key !in items {
        DistinctSnoc(keys, key);
        keys := keys + [key];
      }
      items := items[key := value];
    }
  }
}
