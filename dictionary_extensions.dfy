/**
 * Extension methods on `Dictionary<TKey, TValue>`: merging a second dictionary
 * into the caller's in place under one of three conflict policies, and
 * adding single pairs.
 */
module DictionaryExtensions {
  import opened Results
  import opened Sequences
  import opened MachineIntegers
  import opened DotNetDictionary

  // The values of `enum DictionaryMergeOptions`; any other `int` is also a value of the enum type.
  const IGNORE_DUPLICATES: int32 := 0
  const OVERWRITE: int32 := 1
  const THROW: int32 := 2

  /** One `ArgumentException` per duplicate key, as the `Throw` policy collects them. */
  function ArgumentExceptions(n: nat): (r: seq<Exception>)
    ensures |r| == n && forall i :: 0 <= i < n ==> r[i] == ArgumentException
  {
    seq(n, _ => ArgumentException)
  }

  /** With disjoint key sets, the keys of `order` absent from `m` are all of `order`. */
  lemma {:induction false} AbsentFromDisjoint<K(!new), V>(order: seq<K>, m: map<K, V>)
    requires forall k :: k in order ==> k !in m
    ensures Absent(order, m) == order
  {
    if order != [] {
      var init := order[..|order| - 1];
      assert order == init + [order[|order| - 1]];
      AbsentFromDisjoint(init, m);
    }
  }

  /** With disjoint key sets, the three policies build the same dictionary: same pairs, same order. */
  lemma DisjointMergesAgree<K(!new), V>(order: seq<K>, m: map<K, V>, second: map<K, V>, secondOrder: seq<K>)
    requires forall k :: k in second <==> k in secondOrder
    requires Present(order, second) == []
    requires forall k :: k in m <==> k in order
    ensures second + m == m + second
    ensures Absent(secondOrder, m) == secondOrder
  {
    AbsentFromDisjoint(secondOrder, m);
  }

  /** A step of the `IgnoreDuplicates` loop: a new key's pair is added, a present key's value stays. */
  lemma KeepingStep<K(!new), V>(items: map<K, V>, before: map<K, V>, original: map<K, V>, done: map<K, V>, key: K, value: V)
    requires key !in done && before == done + original
    requires items == if key in before then before else before[key := value]
    ensures key in before <==> key in original
    ensures items == done[key := value] + original
  {
  }

  /** A step of the `Overwrite` loop: the pair's value replaces the old one or is added. */
  lemma OverwritingStep<K(!new), V>(items: map<K, V>, before: map<K, V>, original: map<K, V>, done: map<K, V>, key: K, value: V)
    requires key !in done && before == original + done
    requires items == before[key := value]
    ensures key in before <==> key in original
    ensures items == original + done[key := value]
  {
  }

  /** A step of either loop on the enumeration order: a key that was not present is appended. */
  lemma AppendingStep<K>(keys: seq<K>, before: seq<K>, original: seq<K>, kept: seq<K>, key: K, present: bool)
    requires before == original + kept
    requires keys == if present then before else before + [key]
    ensures keys == original + (kept + if present then [] else [key])
  {
  }

  /** The `IgnoreDuplicates` arm: each pair of `second` whose key is new is added. */
  method MergeIgnoringDuplicates<K(==, !new), V>(source: Dictionary<K, V>, second: Dictionary<K, V>)
    requires source.Valid() && second.Valid() && source != second
    modifies source
    ensures source.Valid()
    ensures source.items == second.items + old(source.items)
    ensures source.keys == old(source.keys) + Absent(second.keys, old(source.items))
  {
    ghost var original, originalKeys := source.items, source.keys;
    ghost var done: map<K, V>, added: seq<K> := map[], [];
    RestrictNone(second.items, second.keys);
    var i := 0;
    while i < |second.keys|
      invariant 0 <= i <= |second.keys|
      invariant source.Valid()
      invariant done == Restrict(second.items, second.keys[..i])
      invariant added == Absent(second.keys[..i], original)
      invariant source.items == done + original
      invariant source.keys == originalKeys + added
    {
      var key := second.keys[i];
      var value := second.items[key];
      DistinctPrefix(second.keys, i);
      RestrictStep(second.items, second.keys, i);
      AbsentStep(second.keys, original, i);
      ghost var before, keysBefore := source.items, source.keys;
      if !source.ContainsKey(key) {
        var _ := source.Add(key, value);
      }
      KeepingStep(source.items, before, original, done, key, value);
      AppendingStep(source.keys, keysBefore, originalKeys, added, key, key in before);
      done, added := done[key := value], added + if key in original then [] else [key];
      i := i + 1;
    }
    assert second.keys[..i] == second.keys;
    RestrictAll(second.items, second.keys);
  }

  /** The `Overwrite` arm: each pair of `second` replaces the value of a present key or is added. */
  method MergeOverwriting<K(==, !new), V>(source: Dictionary<K, V>, second: Dictionary<K, V>)
    requires source.Valid() && second.Valid() && source != second
    modifies source
    ensures source.Valid()
    ensures source.items == old(source.items) + second.items
    ensures source.keys == old(source.keys) + Absent(second.keys, old(source.items))
  {
    ghost var original, originalKeys := source.items, source.keys;
    ghost var done: map<K, V>, added: seq<K> := map[], [];
    RestrictNone(second.items, second.keys);
    var i := 0;
    while i < |second.keys|
      invariant 0 <= i <= |second.keys|
      invariant source.Valid()
      invariant done == Restrict(second.items, second.keys[..i])
      invariant added == Absent(second.keys[..i], original)
      invariant source.items == original + done
      invariant source.keys == originalKeys + added
    {
      var key := second.keys[i];
      var value := second.items[key];
      DistinctPrefix(second.keys, i);
      RestrictStep(second.items, second.keys, i);
      AbsentStep(second.keys, original, i);
      ghost var before, keysBefore := source.items, source.keys;
      if source.ContainsKey(key) {
        source.Set(key, value);
      } else {
        var _ := source.Add(key, value);
      }
      OverwritingStep(source.items, before, original, done, key, value);
      AppendingStep(source.keys, keysBefore, originalKeys, added, key, key in before);
      done, added := done[key := value], added + if key in original then [] else [key];
      i := i + 1;
    }
    assert second.keys[..i] == second.keys;
    RestrictAll(second.items, second.keys);
  }

  /** The first half of the `Throw` arm: one `ArgumentException` per key of `source` that `second` holds. */
  method DuplicateKeyErrors<K(==, !new), V>(source: Dictionary<K, V>, second: Dictionary<K, V>) returns (exceptions: seq<Exception>)
    ensures exceptions == ArgumentExceptions(|Present(source.keys, second.items)|)
  {
    exceptions := [];
    var j := 0;
    while j < |source.keys|
      invariant 0 <= j <= |source.keys|
      invariant exceptions == ArgumentExceptions(|Present(source.keys[..j], second.items)|)
    {
      var key := source.keys[j];
      assert source.keys[..j + 1] == source.keys[..j] + [key];
      if second.ContainsKey(key) {
        exceptions := exceptions + [ArgumentException];
      }
      j := j + 1;
    }
    assert source.keys[..j] == source.keys;
  }

  /** The second half of the `Throw` arm: every pair of a disjoint `second` is added. */
  method AddAll<K(==, !new), V>(source: Dictionary<K, V>, second: Dictionary<K, V>)
    requires source.Valid() && second.Valid() && source != second
    requires forall k :: k in second.items ==> k !in source.items
    modifies source
    ensures source.Valid()
    ensures source.items == old(source.items) + second.items
    ensures source.keys == old(source.keys) + second.keys
  {
    ghost var original, originalKeys := source.items, source.keys;
    ghost var done: map<K, V> := map[];
    RestrictNone(second.items, second.keys);
    var i := 0;
    while i < |second.keys|
      invariant 0 <= i <= |second.keys|
      invariant source.Valid()
      invariant done == Restrict(second.items, second.keys[..i])
      invariant source.items == original + done
      invariant source.keys == originalKeys + second.keys[..i]
    {
      var key := second.keys[i];
      var value := second.items[key];
      DistinctPrefix(second.keys, i);
      RestrictStep(second.items, second.keys, i);
      ghost var before, keysBefore := source.items, source.keys;
      var _ := source.Add(key, value);
      OverwritingStep(source.items, before, original, done, key, value);
      AppendingStep(source.keys, keysBefore, originalKeys, second.keys[..i], key, false);
      done := done[key := value];
      i := i + 1;
    }
    assert second.keys[..i] == second.keys;
    RestrictAll(second.items, second.keys);
  }

  /**
   * `source.AddRange(second, mergeOptions)`: merges `second` into `source` in
   * place and returns `source` itself.  `IgnoreDuplicates` keeps the values
   * `source` had, `Overwrite` takes `second`'s, and `Throw` throws an
   * `AggregateException` holding one `ArgumentException` per shared key,
   * before changing anything.  Any other option value changes nothing.
   */
  method AddRange<K(==, !new), V>(source: Dictionary<K, V>, second: Dictionary<K, V>, mergeOptions: int32)
    returns (r: Result<Dictionary<K, V>>)
    requires source.Valid() && second.Valid() && source != second
    modifies source
    ensures source.Valid()
    ensures r.Throws? <==> mergeOptions == THROW && Present(old(source.keys), second.items) != []
    ensures r.Ok? ==> r.value == source
    ensures r.Throws? ==>
      && r.error == AggregateException(ArgumentExceptions(|Present(old(source.keys), second.items)|))
      && source.keys == old(source.keys) && source.items == old(source.items)
    ensures mergeOptions == IGNORE_DUPLICATES ==>
      && (forall k :: k in source.items <==> k in old(source.items) || k in second.items)
      && (forall k :: k in old(source.items) ==> source.items[k] == old(source.items)[k])
      && (forall k :: k in second.items && k !in old(source.items) ==> source.items[k] == second.items[k])
      && source.keys == old(source.keys) + Absent(second.keys, old(source.items))
    ensures mergeOptions == OVERWRITE ==>
      && (forall k :: k in source.items <==> k in old(source.items) || k in second.items)
      && (forall k :: k in second.items ==> source.items[k] == second.items[k])
      && (forall k :: k in old(source.items) && k !in second.items ==> source.items[k] == old(source.items)[k])
      && source.keys == old(source.keys) + Absent(second.keys, old(source.items))
    ensures mergeOptions == THROW && r.Ok? ==>
      && source.items == old(source.items) + second.items
      && source.items == second.items + old(source.items)
      && source.keys == old(source.keys) + second.keys
    ensures mergeOptions !in {IGNORE_DUPLICATES, OVERWRITE, THROW} ==>
      source.keys == old(source.keys) && source.items == old(source.items)
  {
    if mergeOptions == IGNORE_DUPLICATES {
      MergeIgnoringDuplicates(source, second);
    } else if mergeOptions == OVERWRITE {
      MergeOverwriting(source, second);
    } else if mergeOptions == THROW {
      var exceptions := DuplicateKeyErrors(source, second);
      if |exceptions| > 0 {
        return Throws(AggregateException(exceptions));
      }
      DisjointMergesAgree(source.keys, source.items, second.items, second.keys);
      AddAll(source, second);
    }
    return Ok(source);
  }

  /** `source.Add(pair)`: `ArgumentException` when the key is present, otherwise the pair is appended. */
  method Add<K(==, !new), V>(source: Dictionary<K, V>, pair: (K, V)) returns (o: Outcome)
    requires source.Valid()
    modifies source
    ensures source.Valid()
    ensures o.Raised? <==> old(pair.0 in source.items)
    ensures o.Raised? ==> o.error == ArgumentException && source.keys == old(source.keys) && source.items == old(source.items)
    ensures o.Completed? ==> source.keys == old(source.keys) + [pair.0] && source.items == old(source.items)[pair.0 := pair.1]
  {
    o := source.Add(pair.0, pair.1);
  }

  /** `source.TryAdd(key, value)`: `false` and no change when the key is present, otherwise the pair is added. */
  method TryAdd<K(==, !new), V>(source: Dictionary<K, V>, key: K, value: V) returns (added: bool)
    requires source.Valid()
    modifies source
    ensures source.Valid()
    ensures added <==> old(key !in source.items)
    ensures !added ==> source.keys == old(source.keys) && source.items == old(source.items)
    ensures added ==> source.keys == old(source.keys) + [key] && source.items == old(source.items)[key := value]
  {
    if source.ContainsKey(key) {
      return false;
    }
    var _ := source.Add(key, value);
    return true;
  }

  /** `source.TryAdd(pair)`: `TryAdd` on the pair's key and value. */
  method TryAddPair<K(==, !new), V>(source: Dictionary<K, V>, pair: (K, V)) returns (added: bool)
    requires source.Valid()
    modifies source
    ensures source.Valid()
    ensures added <==> old(pair.0 !in source.items)
    ensures !added ==> source.keys == old(source.keys) && source.items == old(source.items)
    ensures added ==> source.keys == old(source.keys) + [pair.0] && source.items == old(source.items)[pair.0 := pair.1]
  {
    added := TryAdd(source, pair.0, pair.1);
  }
}
