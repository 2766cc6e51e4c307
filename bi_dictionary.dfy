/**
 * `BiDictionary<TFirst, TSecond>`: a one-to-one map kept as two .NET
 * dictionaries, a forward index `_keyValue` and a backward index `_valueKey`,
 * which every public operation updates in lockstep.
 *
 * The forward dictionary's enumeration order is kept as `keyOrder`, because
 * enumeration, `CopyTo` and `Equals` observe it.  The model follows the code
 * as written, including the places where it leaves the two indexes
 * inconsistent; `Consistent()` (the two indexes are mutual inverses) is
 * therefore a property that operations preserve, not a precondition.
 */
module Collections {
  import opened Results
  import opened Sequences

  function KeysOf<K, V>(entries: seq<(K, V)>): (r: seq<K>)
    ensures |r| == |entries| && forall i :: 0 <= i < |entries| ==> r[i] == entries[i].0
  {
    seq(|entries|, i requires 0 <= i < |entries| => entries[i].0)
  }

  function ValuesOf<K, V>(entries: seq<(K, V)>): (r: seq<V>)
    ensures |r| == |entries| && forall i :: 0 <= i < |entries| ==> r[i] == entries[i].1
  {
    seq(|entries|, i requires 0 <= i < |entries| => entries[i].1)
  }

  /** `fwd` and `bwd` hold the same pairs, indexed from opposite sides. */
  ghost predicate MutualInverse<K, V>(fwd: map<K, V>, bwd: map<V, K>)
  {
    && (forall k | k in fwd :: fwd[k] in bwd && bwd[fwd[k]] == k)
    && (forall v | v in bwd :: bwd[v] in fwd && fwd[bwd[v]] == v)
  }

  /** `s` without the element `x` (the order of the others kept), as `Dictionary.Remove` leaves its enumeration. */
  function Without<T(==, !new)>(s: seq<T>, x: T): (r: seq<T>)
    ensures forall y :: y in r <==> y in s && y != x
    ensures Distinct(s) ==> Distinct(r)
    ensures x !in s ==> r == s
  {
    if s == [] then []
    else
      DistinctTail(s);
      var rest := Without(s[1..], x);
      if s[0] == x then rest
      else
        DistinctCons(s[0], rest);
        [s[0]] + rest
  }

  /** The dictionary built from distinct-keyed `entries`. */
  function ForwardOf<K, V>(entries: seq<(K, V)>): (m: map<K, V>)
    requires Distinct(KeysOf(entries))
    ensures forall i :: 0 <= i < |entries| ==> entries[i].0 in m && m[entries[i].0] == entries[i].1
    ensures forall k :: k in m ==> k in KeysOf(entries)
  {
    var keys := KeysOf(entries);
    map i | 0 <= i < |entries| :: keys[i] := entries[i].1
  }

  /** `ToDictionary(v => v.Value, k => k.Key)` on distinct-valued `entries`. */
  function BackwardOf<K, V>(entries: seq<(K, V)>): (m: map<V, K>)
    requires Distinct(ValuesOf(entries))
    ensures forall i :: 0 <= i < |entries| ==> entries[i].1 in m && m[entries[i].1] == entries[i].0
    ensures forall v :: v in m ==> v in ValuesOf(entries)
  {
    var values := ValuesOf(entries);
    map i | 0 <= i < |entries| :: values[i] := entries[i].0
  }

  /** Enumerating the dictionary built from `entries` gives back `entries`. */
  lemma ForwardListsEntries<K, V>(entries: seq<(K, V)>)
    requires Distinct(KeysOf(entries))
    ensures forall k :: k in ForwardOf(entries) <==> k in KeysOf(entries)
    ensures Entries(KeysOf(entries), ForwardOf(entries)) == entries
  {
    var keys, fwd := KeysOf(entries), ForwardOf(entries);
    forall k | k in keys ensures k in fwd {
      var i :| 0 <= i < |keys| && keys[i] == k;
    }
    var pairs := Entries(keys, fwd);
    forall i | 0 <= i < |entries| ensures pairs[i] == entries[i] {
      assert keys[i] == entries[i].0;
    }
  }

  lemma ForwardBackwardInverse<K, V>(entries: seq<(K, V)>)
    requires Distinct(KeysOf(entries)) && Distinct(ValuesOf(entries))
    ensures MutualInverse(ForwardOf(entries), BackwardOf(entries))
  {
    var fwd, bwd := ForwardOf(entries), BackwardOf(entries);
    forall k | k in fwd ensures fwd[k] in bwd && bwd[fwd[k]] == k {
      var i :| 0 <= i < |entries| && KeysOf(entries)[i] == k;
    }
    forall v | v in bwd ensures bwd[v] in fwd && fwd[bwd[v]] == v {
      var i :| 0 <= i < |entries| && ValuesOf(entries)[i] == v;
    }
  }

  /** The pairs of `m` listed in the order `order` gives their keys. */
  function Entries<K, V>(order: seq<K>, m: map<K, V>): (r: seq<(K, V)>)
    requires forall k :: k in order ==> k in m
    ensures |r| == |order|
    ensures forall i :: 0 <= i < |order| ==> r[i] == (order[i], m[order[i]])
  {
    seq(|order|, i requires 0 <= i < |order| => (order[i], m[order[i]]))
  }

  /** Two forward indexes with equal enumerations have the same order and the same pairs. */
  lemma EqualEntries<K, V>(order1: seq<K>, m1: map<K, V>, order2: seq<K>, m2: map<K, V>)
    requires forall k :: k in m1 <==> k in order1
    requires forall k :: k in m2 <==> k in order2
    requires Entries(order1, m1) == Entries(order2, m2)
    ensures order1 == order2 && m1 == m2
  {
    var e := Entries(order1, m1);
    assert order1 == KeysOf(e) == order2;
    forall k | k in m1 ensures k in m2 && m2[k] == m1[k] {
      var i :| 0 <= i < |order1| && order1[i] == k;
      assert e[i] == (k, m1[k]) == (k, m2[k]);
    }
  }

  /** A sequence without repetitions has as many elements as its set. */
  lemma {:induction false} DistinctCardinality<T>(s: seq<T>)
    requires Distinct(s)
    ensures |set x | x in s| == |s|
  {
    if s != [] {
      var rest := s[1..];
      assert Distinct(rest) by {
        forall i, j | 0 <= i < j < |rest| ensures rest[i] != rest[j] {
          assert rest[i] == s[i + 1] && rest[j] == s[j + 1];
        }
      }
      DistinctCardinality(rest);
      assert (set x | x in s) == (set x | x in rest) + {s[0]};
      assert s[0] !in rest by {
        forall j | 0 <= j < |rest| ensures rest[j] != s[0] { assert rest[j] == s[j + 1]; }
      }
    }
  }

  /** Two mutually inverse indexes have the same number of entries. */
  lemma {:induction false} MutualInverseSameSize<K, V>(fwd: map<K, V>, bwd: map<V, K>)
    requires MutualInverse(fwd, bwd)
    ensures |fwd| == |bwd|
    decreases |fwd|
  {
    if fwd != map[] {
      var k :| k in fwd;
      var v := fwd[k];
      var fwd', bwd' := fwd - {k}, bwd - {v};
      assert MutualInverse(fwd', bwd');
      MutualInverseSameSize(fwd', bwd');
      assert fwd'.Keys == fwd.Keys - {k};
      assert bwd'.Keys == bwd.Keys - {v};
    }
  }

  /** The backward index is determined by the forward one. */
  lemma InverseIsUnique<K, V>(fwd: map<K, V>, bwd1: map<V, K>, bwd2: map<V, K>)
    requires MutualInverse(fwd, bwd1) && MutualInverse(fwd, bwd2)
    ensures bwd1 == bwd2
  {
    forall v | v in bwd1 ensures v in bwd2 && bwd2[v] == bwd1[v] {
      assert fwd[bwd1[v]] == v;
    }
    forall v | v in bwd2 ensures v in bwd1 {
      assert fwd[bwd2[v]] == v;
    }
  }

  /** Removing a linked pair from both indexes keeps them mutually inverse. */
  lemma RemoveLinkedPair<K, V>(fwd: map<K, V>, bwd: map<V, K>, key: K)
    requires MutualInverse(fwd, bwd) && key in fwd
    ensures MutualInverse(fwd - {key}, bwd - {fwd[key]})
  {
    forall v | v in bwd - {fwd[key]} ensures bwd[v] in fwd - {key} {
      assert fwd[bwd[v]] == v;
    }
  }

  /** What the by-value setter does to mutually inverse indexes, case by case. */
  lemma SetByValueCases<K, V>(fwd: map<K, V>, bwd: map<V, K>, val: V, key: K)
    requires MutualInverse(fwd, bwd) && val in bwd
    ensures bwd[val] == key ==>
      key !in fwd - {bwd[val]} && (fwd - {bwd[val]})[key := val] == fwd && bwd[val := key] == bwd
    ensures key !in fwd ==>
      && key !in fwd - {bwd[val]}
      && MutualInverse((fwd - {bwd[val]})[key := val], bwd[val := key])
      && bwd[val] !in (fwd - {bwd[val]})[key := val]
    ensures key in fwd && fwd[key] != val ==>
      key in fwd - {bwd[val]} && !MutualInverse(fwd - {bwd[val]}, bwd[val := key])
  {
    var previous := bwd[val];
    var fwd' := fwd - {previous};
    if key !in fwd {
      var bwd' := bwd[val := key];
      forall v | v in bwd' ensures bwd'[v] in fwd'[key := val] && fwd'[key := val][bwd'[v]] == v {
        if v != val { assert bwd[v] != previous; }
      }
    }
    if key in fwd && fwd[key] != val {
      assert bwd[val := key][val] == key;
    }
  }

  class BiDictionary<K(==, !new), V(==, !new)> {
    /** The enumeration order of the forward index `_keyValue`. */
    var keyOrder: seq<K>
    /** The forward index `_keyValue`. */
    var keyValue: map<K, V>
    /** The backward index `_valueKey`. */
    var valueKey: map<V, K>

    /** The forward index is a well-formed dictionary: its enumeration lists each key once. */
    ghost predicate Valid()
      reads this
    {
      Distinct(keyOrder) && forall k :: k in keyValue <==> k in keyOrder
    }

    /** The two indexes are mutual inverses: one logical set of pairs. */
    ghost predicate Consistent()
      reads this
    {
      MutualInverse(keyValue, valueKey)
    }

    /** `new BiDictionary()`. */
    constructor ()
      ensures Valid() && Consistent()
      ensures keyOrder == [] && keyValue == map[] && valueKey == map[]
    {
      keyOrder := [];
      keyValue := map[];
      valueKey := map[];
    }

    /** The body of the dictionary constructor once the values are known to be unique. */
    constructor FromUnique(entries: seq<(K, V)>)
      requires Distinct(KeysOf(entries)) && Distinct(ValuesOf(entries))
      ensures Valid() && Consistent()
      ensures Enumerate() == entries
    {
      keyOrder := KeysOf(entries);
      keyValue := ForwardOf(entries);
      valueKey := BackwardOf(entries);
      new;
      ForwardBackwardInverse(entries);
      ForwardListsEntries(entries);
    }

    /**
     * `new BiDictionary(dictionary)`: throws `ArgumentException` when two keys of
     * `dictionary` share a value; otherwise the forward index copies `dictionary`
     * (its order included) and the backward index is its inverse.
     */
    static method FromDictionary(dictionary: seq<(K, V)>) returns (r: Result<BiDictionary<K, V>>)
      requires Distinct(KeysOf(dictionary))
      ensures r.Ok? <==> Distinct(ValuesOf(dictionary))
      ensures r.Throws? ==> r.error == ArgumentException
      ensures r.Ok? ==> fresh(r.value) && r.value.Valid() && r.value.Consistent()
      ensures r.Ok? ==> r.value.Enumerate() == dictionary
    {
      var unique := AllValuesUnique(ValuesOf(dictionary));
      if !unique {
        return Throws(ArgumentException);
      }
      var d := new BiDictionary.FromUnique(dictionary);
      return Ok(d);
    }

    /**
     * `new BiDictionary(array)`, with the array's pairs as `items`: `ToDictionary` throws `ArgumentException` on a
     * repeated key; then the dictionary constructor runs.
     */
    static method FromArray(items: seq<(K, V)>) returns (r: Result<BiDictionary<K, V>>)
      ensures r.Ok? <==> Distinct(KeysOf(items)) && Distinct(ValuesOf(items))
      ensures r.Throws? ==> r.error == ArgumentException
      ensures r.Ok? ==> fresh(r.value) && r.value.Valid() && r.value.Consistent()
      ensures r.Ok? ==> r.value.Enumerate() == items
    {
      var uniqueKeys := AllValuesUnique(KeysOf(items));
      if !uniqueKeys {
        return Throws(ArgumentException);
      }
      r := FromDictionary(items);
    }

    /** The explicit conversion from a `Dictionary`, which constructs a new `BiDictionary` from it. */
    static method ExplicitConversion(dictionary: seq<(K, V)>) returns (r: Result<BiDictionary<K, V>>)
      requires Distinct(KeysOf(dictionary))
      ensures r.Ok? <==> Distinct(ValuesOf(dictionary))
      ensures r.Throws? ==> r.error == ArgumentException
      ensures r.Ok? ==> fresh(r.value) && r.value.Valid() && r.value.Consistent()
      ensures r.Ok? ==> r.value.Enumerate() == dictionary
    {
      r := FromDictionary(dictionary);
    }

    /** `Count`: the size of the forward index, which is also the size of the backward one when they are consistent. */
    function Count(): (n: nat)
      reads this
      requires Valid()
      ensures n == |keyOrder|
      ensures Consistent() ==> n == |valueKey|
    {
      DistinctCardinality(keyOrder);
      assert keyValue.Keys == set k | k in keyOrder;
      assert Consistent() ==> |keyValue| == |valueKey| by {
        if Consistent() { MutualInverseSameSize(keyValue, valueKey); }
      }
      |keyValue|
    }

    /** `GetEnumerator()`: the forward pairs, each exactly once, in the forward index's order. */
    function Enumerate(): (pairs: seq<(K, V)>)
      reads this
      requires Valid()
      ensures |pairs| == Count()
      ensures forall k, v :: (k, v) in pairs <==> k in keyValue && keyValue[k] == v
      ensures Distinct(KeysOf(pairs))
      ensures KeysOf(pairs) == keyOrder
    {
      var pairs := Entries(keyOrder, keyValue);
      assert KeysOf(pairs) == keyOrder;
      forall k, v | k in keyValue && keyValue[k] == v ensures (k, v) in pairs {
        var i :| 0 <= i < |keyOrder| && keyOrder[i] == k;
        assert pairs[i] == (k, v);
      }
      pairs
    }

    /** The getter `this[key]`: the key's value, or `KeyNotFoundException`. */
    function GetByKey(key: K): (r: Result<V>)
      reads this
      requires Valid()
      ensures r.Throws? <==> key !in keyValue
      ensures r.Throws? ==> r.error == KeyNotFoundException
      ensures r.Ok? ==> (key, r.value) in Enumerate()
      ensures r.Ok? && Consistent() ==> r.value in valueKey && valueKey[r.value] == key
    {
      if key in keyValue then Ok(keyValue[key]) else Throws(KeyNotFoundException)
    }

    /** The getter `this[val]`: the value's key, or `KeyNotFoundException`. */
    function GetByValue(val: V): (r: Result<K>)
      reads this
      requires Valid()
      ensures r.Throws? <==> val !in valueKey
      ensures r.Throws? ==> r.error == KeyNotFoundException
      ensures r.Ok? ==> val in valueKey && r.value == valueKey[val]
      ensures r.Ok? && Consistent() ==> (r.value, val) in Enumerate()
    {
      if val in valueKey then Ok(valueKey[val]) else Throws(KeyNotFoundException)
    }

    /** `TryGetValue`: agrees with the getter, with `None` where the getter throws. */
    function TryGetValue(key: K): (r: Option<V>)
      reads this
      requires Valid()
      ensures r.None? <==> GetByKey(key).Throws?
      ensures r.Some? ==> GetByKey(key) == Ok(r.value)
    {
      if key in keyValue then Some(keyValue[key]) else None
    }

    /** `TryGetKey`: agrees with the getter by value, with `None` where it throws. */
    function TryGetKey(value: V): (r: Option<K>)
      reads this
      requires Valid()
      ensures r.None? <==> GetByValue(value).Throws?
      ensures r.Some? ==> GetByValue(value) == Ok(r.value)
    {
      if value in valueKey then Some(valueKey[value]) else None
    }

    /** `ContainsKey`: the key is enumerated. */
    function ContainsKey(key: K): (b: bool)
      reads this
      requires Valid()
      ensures b <==> key in keyOrder
    {
      key in keyValue
    }

    /** `ContainsValue`: with consistent indexes, the value is some key's partner. */
    function ContainsValue(value: V): (b: bool)
      reads this
      requires Valid()
      ensures b <==> GetByValue(value).Ok?
      ensures Consistent() ==> (b <==> exists k :: (k, value) in Enumerate())
    {
      assert Consistent() && value in valueKey ==> (valueKey[value], value) in Enumerate();
      value in valueKey
    }

    /**
     * `Contains(key, value)`: both sides are present somewhere.  They need not
     * be linked: a linked pair is contained, but so is a key with any bound value.
     */
    function Contains(key: K, value: V): (b: bool)
      reads this
      requires Valid()
      ensures b <==> ContainsKey(key) && ContainsValue(value)
      ensures Consistent() && (key, value) in Enumerate() ==> b
      ensures Consistent() && key in keyValue ==> (b <==> exists k :: (k, value) in Enumerate())
    {
      assert Consistent() && value in valueKey ==> (valueKey[value], value) in Enumerate();
      key in keyValue && value in valueKey
    }

    /** `Contains(KeyValuePair)`, which delegates to `Contains(key, value)`. */
    function ContainsPair(pair: (K, V)): (b: bool)
      reads this
      requires Valid()
      ensures b <==> ContainsKey(pair.0) && ContainsValue(pair.1)
    {
      Contains(pair.0, pair.1)
    }

    /**
     * `Equals(other)`: equal counts and element-wise equal enumerations.  Equal
     * dictionaries hold the same forward pairs in the same order, and, when both
     * are consistent, the same backward index.
     */
    function Equals(other: BiDictionary<K, V>): (b: bool)
      reads this, other
      requires Valid() && other.Valid()
      ensures b ==> keyValue == other.keyValue && keyOrder == other.keyOrder
      ensures b && Consistent() && other.Consistent() ==> valueKey == other.valueKey
      ensures keyOrder == other.keyOrder && keyValue == other.keyValue ==> b
    {
      var b := Count() == other.Count() && Enumerate() == other.Enumerate();
      assert b ==> keyValue == other.keyValue && keyOrder == other.keyOrder by {
        if b { EqualEntries(keyOrder, keyValue, other.keyOrder, other.keyValue); }
      }
      assert b && Consistent() && other.Consistent() ==> valueKey == other.valueKey by {
        if b && Consistent() && other.Consistent() { InverseIsUnique(keyValue, valueKey, other.valueKey); }
      }
      b
    }

    // The .NET `Dictionary` operations on the two indexes.

    /** `_keyValue.Add(key, value)`: `ArgumentException` on a present key; otherwise appended. */
    method AddForward(key: K, value: V) returns (o: Outcome)
      requires Valid()
      modifies this
      ensures Valid() && valueKey == old(valueKey)
      ensures old(key in keyValue) ==> o == Raised(ArgumentException) && unchanged(this)
      ensures old(key !in keyValue) ==> o == Completed && keyValue == old(keyValue)[key := value] && keyOrder == old(keyOrder) + [key]
    {
      if key in keyValue {
        return Raised(ArgumentException);
      }
      keyValue := keyValue[key := value];
      keyOrder := keyOrder + [key];
      o := Completed;
    }

    /** `_keyValue[key] = value`: replaced in place, or appended when absent. */
    method SetForward(key: K, value: V)
      requires Valid()
      modifies this
      ensures Valid() && valueKey == old(valueKey)
      ensures keyValue == old(keyValue)[key := value]
      ensures keyOrder == if old(key in keyValue) then old(keyOrder) else old(keyOrder) + [key]
    {
      if key !in keyValue {
        keyOrder := keyOrder + [key];
      }
      keyValue := keyValue[key := value];
    }

    /** `_keyValue.Remove(key)`: whether the key was present; it is gone afterwards. */
    method RemoveForward(key: K) returns (removed: bool)
      requires Valid()
      modifies this
      ensures Valid() && valueKey == old(valueKey)
      ensures removed == old(key in keyValue)
      ensures keyValue == old(keyValue) - {key} && keyOrder == Without(old(keyOrder), key)
    {
      removed := key in keyValue;
      keyValue := keyValue - {key};
      keyOrder := Without(keyOrder, key);
    }

    /** `_valueKey.Add(value, key)`: `ArgumentException` on a present value. */
    method AddBackward(value: V, key: K) returns (o: Outcome)
      modifies this`valueKey
      ensures old(value in valueKey) ==> o == Raised(ArgumentException) && valueKey == old(valueKey)
      ensures old(value !in valueKey) ==> o == Completed && valueKey == old(valueKey)[value := key]
    {
      if value in valueKey {
        return Raised(ArgumentException);
      }
      valueKey := valueKey[value := key];
      o := Completed;
    }

    /** `_valueKey[value] = key`. */
    method SetBackward(value: V, key: K)
      modifies this`valueKey
      ensures valueKey == old(valueKey)[value := key]
    {
      valueKey := valueKey[value := key];
    }

    /** `_valueKey.Remove(value)`. */
    method RemoveBackward(value: V) returns (removed: bool)
      modifies this`valueKey
      ensures removed == old(value in valueKey)
      ensures valueKey == old(valueKey) - {value}
    {
      removed := value in valueKey;
      valueKey := valueKey - {value};
    }

    // The public operations.

    /**
     * `Add(key, value)`: when the key or the value is already bound, nothing
     * changes and nothing is thrown; otherwise the pair is inserted in both
     * indexes.  Consistency is preserved.
     */
    method Add(key: K, value: V)
      requires Valid()
      modifies this
      ensures Valid()
      ensures old(key in keyValue || value in valueKey) ==> unchanged(this)
      ensures old(key !in keyValue && value !in valueKey) ==>
        && keyValue == old(keyValue)[key := value]
        && valueKey == old(valueKey)[value := key]
        && keyOrder == old(keyOrder) + [key]
      ensures old(Consistent()) ==> Consistent()
    {
      if key in keyValue || value in valueKey {
        return;
      }
      var _ := AddForward(key, value);
      var _ := AddBackward(value, key);
    }

    /** `Add(KeyValuePair)`, which delegates to `Add(key, value)`. */
    method AddPair(pair: (K, V))
      requires Valid()
      modifies this
      ensures Valid()
      ensures old(pair.0 in keyValue || pair.1 in valueKey) ==> unchanged(this)
      ensures old(pair.0 !in keyValue && pair.1 !in valueKey) ==>
        && keyValue == old(keyValue)[pair.0 := pair.1]
        && valueKey == old(valueKey)[pair.1 := pair.0]
        && keyOrder == old(keyOrder) + [pair.0]
      ensures old(Consistent()) ==> Consistent()
    {
      Add(pair.0, pair.1);
    }

    /** `Clear()`: both indexes emptied, which is consistent. */
    method Clear()
      modifies this
      ensures Valid() && Consistent() && Count() == 0
      ensures keyOrder == [] && keyValue == map[] && valueKey == map[]
    {
      keyValue := map[];
      keyOrder := [];
      valueKey := map[];
    }

    /**
     * The setter `this[key] = value`.  An absent key throws
     * `KeyNotFoundException` before any change.  Otherwise the old value is
     * unbound backward and the forward entry replaced; then adding `value`
     * backward throws `ArgumentException` when another key holds it, and the
     * changes made so far stay (the setter is not atomic).
     */
    method SetByKey(key: K, value: V) returns (o: Outcome)
      requires Valid()
      modifies this
      ensures Valid()
      ensures old(key !in keyValue) ==> o == Raised(KeyNotFoundException) && unchanged(this)
      ensures old(key in keyValue) ==>
        && keyOrder == old(keyOrder)
        && keyValue == old(keyValue)[key := value]
        && (value in old(valueKey) - {old(keyValue[key])} ==>
              o == Raised(ArgumentException) && valueKey == old(valueKey) - {old(keyValue[key])})
        && (value !in old(valueKey) - {old(keyValue[key])} ==>
              o == Completed && valueKey == (old(valueKey) - {old(keyValue[key])})[value := key])
      ensures old(Consistent() && key in keyValue && keyValue[key] == value) ==>
        o == Completed && keyValue == old(keyValue) && valueKey == old(valueKey)
      ensures old(Consistent() && key in keyValue && value !in valueKey) ==>
        o == Completed && Consistent() && old(keyValue[key]) !in valueKey
      ensures old(Consistent() && key in keyValue && value in valueKey && valueKey[value] != key) ==>
        o == Raised(ArgumentException) && !Consistent()
    {
      if key !in keyValue {
        return Raised(KeyNotFoundException);
      }
      var previous := keyValue[key];
      var _ := RemoveBackward(previous);
      SetForward(key, value);
      o := AddBackward(value, key);
      if old(Consistent()) && value in old(valueKey) && old(valueKey[value]) != key {
        var other := old(valueKey[value]);
        assert other in keyValue && keyValue[other] == value && other != key;
      }
    }

    /**
     * The setter `this[val] = key`, the mirror image of `SetByKey`: the old key
     * is removed forward, the backward entry replaced, and adding `key` forward
     * throws `ArgumentException` when it is bound to another value.  In this
     * model's ordering a successful assignment appends the key to the
     * enumeration (.NET would reuse the slot the removal freed).
     */
    method SetByValue(val: V, key: K) returns (o: Outcome)
      requires Valid()
      modifies this
      ensures Valid()
      ensures old(val !in valueKey) ==> o == Raised(KeyNotFoundException) && unchanged(this)
      ensures old(val in valueKey) ==>
        && valueKey == old(valueKey)[val := key]
        && (key in old(keyValue) - {old(valueKey[val])} ==>
              && o == Raised(ArgumentException)
              && keyValue == old(keyValue) - {old(valueKey[val])}
              && keyOrder == Without(old(keyOrder), old(valueKey[val])))
        && (key !in old(keyValue) - {old(valueKey[val])} ==>
              && o == Completed
              && keyValue == (old(keyValue) - {old(valueKey[val])})[key := val]
              && keyOrder == Without(old(keyOrder), old(valueKey[val])) + [key])
      ensures old(Consistent() && val in valueKey && valueKey[val] == key) ==>
        o == Completed && keyValue == old(keyValue) && valueKey == old(valueKey)
      ensures old(Consistent() && val in valueKey && key !in keyValue) ==>
        o == Completed && Consistent() && old(valueKey[val]) !in keyValue
      ensures old(Consistent() && val in valueKey && key in keyValue && keyValue[key] != val) ==>
        o == Raised(ArgumentException) && !Consistent()
    {
      if val !in valueKey {
        return Raised(KeyNotFoundException);
      }
      var previous := valueKey[val];
      var _ := RemoveForward(previous);
      SetBackward(val, key);
      o := AddForward(key, val);
      if old(Consistent()) {
        SetByValueCases(old(keyValue), old(valueKey), val, key);
      }
    }

    /**
     * `RemoveByKey(key)`: an absent key throws `KeyNotFoundException` (the
     * lookup comes first).  When the key's value is bound backward, both
     * entries are removed and the result is true; otherwise false and no change.
     */
    method RemoveByKey(key: K) returns (r: Result<bool>)
      requires Valid()
      modifies this
      ensures Valid()
      ensures old(key !in keyValue) ==> r == Throws(KeyNotFoundException) && unchanged(this)
      ensures old(key in keyValue && keyValue[key] !in valueKey) ==> r == Ok(false) && unchanged(this)
      ensures old(key in keyValue && keyValue[key] in valueKey) ==>
        && r == Ok(true)
        && keyValue == old(keyValue) - {key}
        && valueKey == old(valueKey) - {old(keyValue[key])}
        && keyOrder == Without(old(keyOrder), key)
      ensures old(Consistent()) ==> Consistent() && (old(key in keyValue) ==> r == Ok(true))
    {
      if key !in keyValue {
        return Throws(KeyNotFoundException);
      }
      var value := keyValue[key];
      if !Contains(key, value) {
        return Ok(false);
      }
      var removedValue := RemoveBackward(value);
      var removedKey := false;
      if removedValue {
        removedKey := RemoveForward(key);
      }
      r := Ok(removedValue && removedKey);
      if old(Consistent()) {
        RemoveLinkedPair(old(keyValue), old(valueKey), key);
      }
    }

    /**
     * `RemoveByValue(value)`: the mirror image of `RemoveByKey`; an absent
     * value throws `KeyNotFoundException`.
     */
    method RemoveByValue(value: V) returns (r: Result<bool>)
      requires Valid()
      modifies this
      ensures Valid()
      ensures old(value !in valueKey) ==> r == Throws(KeyNotFoundException) && unchanged(this)
      ensures old(value in valueKey && valueKey[value] !in keyValue) ==> r == Ok(false) && unchanged(this)
      ensures old(value in valueKey && valueKey[value] in keyValue) ==>
        && r == Ok(true)
        && valueKey == old(valueKey) - {value}
        && keyValue == old(keyValue) - {old(valueKey[value])}
        && keyOrder == Without(old(keyOrder), old(valueKey[value]))
      ensures old(Consistent()) ==> Consistent() && (old(value in valueKey) ==> r == Ok(true))
    {
      if value !in valueKey {
        return Throws(KeyNotFoundException);
      }
      var key := valueKey[value];
      if !Contains(key, value) {
        return Ok(false);
      }
      var removedValue := RemoveBackward(value);
      var removedKey := false;
      if removedValue {
        removedKey := RemoveForward(key);
      }
      r := Ok(removedValue && removedKey);
      if old(Consistent()) {
        RemoveLinkedPair(old(keyValue), old(valueKey), key);
      }
    }

    /**
     * `Remove(KeyValuePair)`: false and no change unless the key and the value
     * are both present; then the key's forward entry and the value's backward
     * entry are removed and the result is true.  For a linked pair that keeps
     * the indexes consistent; for an unlinked key and value it breaks them.
     */
    method Remove(pair: (K, V)) returns (b: bool)
      requires Valid()
      modifies this
      ensures Valid()
      ensures !old(pair.0 in keyValue && pair.1 in valueKey) ==> !b && unchanged(this)
      ensures old(pair.0 in keyValue && pair.1 in valueKey) ==>
        && b
        && keyValue == old(keyValue) - {pair.0}
        && valueKey == old(valueKey) - {pair.1}
        && keyOrder == Without(old(keyOrder), pair.0)
      ensures old(Consistent() && pair.0 in keyValue && keyValue[pair.0] == pair.1) ==> Consistent()
      ensures old(Consistent() && pair.0 in keyValue && pair.1 in valueKey && keyValue[pair.0] != pair.1) ==>
        !Consistent()
    {
      if !Contains(pair.0, pair.1) {
        return false;
      }
      var removedValue := RemoveBackward(pair.1);
      var removedKey := false;
      if removedValue {
        removedKey := RemoveForward(pair.0);
      }
      b := removedValue && removedKey;
      if old(Consistent()) {
        var partner := old(keyValue[pair.0]);
        if partner == pair.1 {
          RemoveLinkedPair(old(keyValue), old(valueKey), pair.0);
        } else {
          assert partner in valueKey && valueKey[partner] == pair.0 && pair.0 !in keyValue;
        }
      }
    }

    /**
     * `CopyTo(array, arrayIndex)`: the enumeration is written to
     * `target[arrayIndex..]`.  A negative index throws
     * `ArgumentOutOfRangeException` and too little room `ArgumentException`,
     * both before anything is written.
     */
    method CopyTo(target: array<(K, V)>, arrayIndex: int) returns (o: Outcome)
      requires Valid()
      modifies target
      ensures arrayIndex < 0 ==> o == Raised(ArgumentOutOfRangeException) && unchanged(target)
      ensures 0 <= arrayIndex && target.Length - arrayIndex < Count() ==>
        o == Raised(ArgumentException) && unchanged(target)
      ensures 0 <= arrayIndex && Count() <= target.Length - arrayIndex ==>
        && o == Completed
        && (forall i :: 0 <= i < Count() ==> target[arrayIndex + i] == Enumerate()[i])
        && (forall i :: 0 <= i < target.Length && !(arrayIndex <= i < arrayIndex + Count()) ==>
              target[i] == old(target[i]))
    {
      if arrayIndex < 0 {
        return Raised(ArgumentOutOfRangeException);
      }
      var pairs := Enumerate();
      if target.Length - arrayIndex < |pairs| {
        return Raised(ArgumentException);
      }
      forall i | 0 <= i < |pairs| {
        target[arrayIndex + i] := pairs[i];
      }
      o := Completed;
    }
  }

  /** `AllValuesUnique`: adds each element to a `HashSet` and stops at the first one already seen. */
  method AllValuesUnique<T(==)>(collection: seq<T>) returns (unique: bool)
    ensures unique <==> Distinct(collection)
  {
    var diffChecker: set<T> := {};
    var i := 0;
    while i < |collection|
      invariant 0 <= i <= |collection|
      invariant diffChecker == set j | 0 <= j < i :: collection[j]
      invariant Distinct(collection[..i])
    {
      if collection[i] in diffChecker {
        var j :| 0 <= j < i && collection[j] == collection[i];
        return false;
      }
      diffChecker := diffChecker + {collection[i]};
      i := i + 1;
    }
    assert collection[..i] == collection;
    return true;
  }

  // The scenarios of the unit tests.

  /** Adding `(1, "one")` to an empty map gives exactly one pair. */
  method AddToEmptyGivesOnePair() returns (count: nat, pairs: seq<(int, string)>)
    ensures count == 1 && pairs == [(1, "one")]
  {
    var d := new BiDictionary<int, string>();
    d.Add(1, "one");
    count := d.Count();
    pairs := d.Enumerate();
  }

  /** The collection initializer `{ {1, "one"}, {2, "two"} }`: two `Add` calls on a new map. */
  method OneTwo() returns (d: BiDictionary<int, string>)
    ensures fresh(d) && d.Valid() && d.Consistent()
    ensures d.keyOrder == [1, 2]
    ensures d.keyValue == map[1 := "one", 2 := "two"] && d.valueKey == map["one" := 1, "two" := 2]
  {
    d := new BiDictionary<int, string>();
    d.Add(1, "one");
    d.Add(2, "two");
  }

  /** Removing key 1 from `{1: "one", 2: "two"}` succeeds and leaves the pair `(2, "two")`. */
  method RemoveByKeyLeavesOnePair() returns (removed: Result<bool>, count: nat, pairs: seq<(int, string)>)
    ensures removed == Ok(true) && count == 1 && pairs == [(2, "two")]
  {
    var d := OneTwo();
    removed := d.RemoveByKey(1);
    assert d.keyOrder == Without([1, 2], 1) == [2];
    count := d.Count();
    pairs := d.Enumerate();
  }

  /** Two maps built by the same `Add` are equal. */
  method SameAddsAreEqual() returns (equal: bool)
    ensures equal
  {
    var d1 := new BiDictionary<int, string>();
    d1.Add(1, "one");
    var d2 := new BiDictionary<int, string>();
    d2.Add(1, "one");
    equal := d1.Equals(d2);
  }

  /** `Contains(1, "two")` holds in `{1: "one", 2: "two"}` although key 1 is linked to "one". */
  method ContainsIgnoresLinks() returns (contains: bool, partner: Option<string>)
    ensures contains && partner == Some("one")
  {
    var d := OneTwo();
    contains := d.Contains(1, "two");
    partner := d.TryGetValue(1);
  }
}
