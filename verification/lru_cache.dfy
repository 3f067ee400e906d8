/**
 * A size-bounded, access-ordered cache whose entries expire lazily.
 *
 * The store is a `LinkedHashMap` in access order whose `removeEldestEntry`
 * evicts the head once the size exceeds `maxEntries`. It is modelled as the
 * sequence of its entries from least to most recently accessed; a read or a
 * write of a key moves that key to the end. The wall clock is the explicit
 * argument `now` (milliseconds).
 */
module LruCache {
  import opened Wrappers
  import opened CacheEntries

  datatype Slot<K, V> = Slot(key: K, entry: CacheEntry<V>)

  /**
   * `slots[0]` is the eldest entry (least recently accessed) and the last
   * slot the most recently accessed one. `maxEntries` is a Java `int` and
   * `ttlMillis` a Java `long`; neither is checked by the constructor, so
   * both may be negative.
   */
  datatype Cache<K, V> = Cache(maxEntries: int, ttlMillis: int, slots: seq<Slot<K, V>>)

  // ---------------------------------------------------------------------
  // Views of the store
  // ---------------------------------------------------------------------

  /** The most entries the cache can keep: `maxEntries`, or none when that is not positive. */
  function Capacity<K, V>(c: Cache<K, V>): nat {
    if c.maxEntries > 0 then c.maxEntries else 0
  }

  ghost predicate DistinctKeys<K, V>(s: seq<Slot<K, V>>) {
    forall i, j :: 0 <= i < j < |s| ==> s[i].key != s[j].key
  }

  /** What a cache reachable from the constructor satisfies: a map, within its bound. */
  ghost predicate Valid<K, V>(c: Cache<K, V>) {
    DistinctKeys(c.slots) && |c.slots| <= Capacity(c)
  }

  function KeySet<K, V>(s: seq<Slot<K, V>>): set<K> {
    set i | 0 <= i < |s| :: s[i].key
  }

  /** The position of `key` in the access order, if it is stored. */
  function Find<K(==), V>(s: seq<Slot<K, V>>, key: K): (r: Option<nat>)
    ensures r.Some? ==> r.value < |s| && s[r.value].key == key
    ensures r.Some? ==> forall j :: 0 <= j < r.value ==> s[j].key != key
    ensures r.None? ==> forall j :: 0 <= j < |s| ==> s[j].key != key
  {
    if |s| == 0 then None
    else if s[0].key == key then Some(0)
    else
      match Find(s[1..], key)
      case Some(i) => Some(i + 1)
      case None => None
  }

  /** The entry stored under `key`, read without touching the access order. */
  function Lookup<K(==), V>(s: seq<Slot<K, V>>, key: K): Option<CacheEntry<V>> {
    match Find(s, key)
    case Some(i) => Some(s[i].entry)
    case None => None
  }

  function Peek<K(==), V>(c: Cache<K, V>, key: K): Option<CacheEntry<V>> {
    Lookup(c.slots, key)
  }

  /** The access order of every key other than `key`. */
  function Without<K(==), V>(s: seq<Slot<K, V>>, key: K): (r: seq<Slot<K, V>>)
    ensures |r| <= |s|
    ensures forall i :: 0 <= i < |r| ==> r[i].key != key
    ensures (forall i :: 0 <= i < |s| ==> s[i].key != key) ==> r == s
  {
    if |s| == 0 then []
    else (if s[0].key == key then [] else [s[0]]) + Without(s[1..], key)
  }

  function RemoveAt<T>(s: seq<T>, i: nat): (r: seq<T>)
    requires i < |s|
  {
    s[..i] + s[i + 1..]
  }

  // ---------------------------------------------------------------------
  // Operations
  // ---------------------------------------------------------------------

  /** `new LruCache(maxEntries, ttlMillis)`: an empty store. */
  function New<K, V>(maxEntries: int, ttlMillis: int): (c: Cache<K, V>)
    ensures Valid(c)
    ensures Size(c) == 0
    ensures c.maxEntries == maxEntries && c.ttlMillis == ttlMillis
  {
    Cache(maxEntries, ttlMillis, [])
  }

  /** An entry has expired once its age is strictly greater than the TTL. */
  predicate IsExpired<K, V>(c: Cache<K, V>, e: CacheEntry<V>, now: nat) {
    now - e.createdAt > c.ttlMillis
  }

  datatype GetResult<K, V> = GetResult(cache: Cache<K, V>, value: Option<V>)

  /**
   * `get(key)`: a missing key reads as absent and changes nothing; a live
   * entry is returned and becomes the most recently used; an expired entry
   * reads as absent and is removed.
   */
  function Get<K(==), V>(c: Cache<K, V>, key: K, now: nat): (r: GetResult<K, V>)
    ensures r.cache.maxEntries == c.maxEntries && r.cache.ttlMillis == c.ttlMillis
    ensures Valid(c) ==> Valid(r.cache)
    ensures Peek(c, key).None? ==> r.value.None? && r.cache == c
    ensures Peek(c, key).Some? && !IsExpired(c, Peek(c, key).value, now) ==>
      && r.value == Some(Peek(c, key).value.value)
      && |r.cache.slots| == |c.slots|
      && r.cache.slots[|r.cache.slots| - 1] == Slot(key, Peek(c, key).value)
      && Without(r.cache.slots, key) == Without(c.slots, key)
    ensures Peek(c, key).Some? && IsExpired(c, Peek(c, key).value, now) ==>
      && r.value.None?
      && Without(r.cache.slots, key) == Without(c.slots, key)
      && (DistinctKeys(c.slots) ==> r.cache.slots == Without(c.slots, key))
  {
    match Find(c.slots, key)
    case None => GetResult(c, None)
    case Some(i) =>
      var e := c.slots[i].entry;
      var rest := RemoveAt(c.slots, i);
      WithoutRemoveAt(c.slots, i, key);
      if IsExpired(c, e, now) then
        RemoveAtDistinct(c.slots, i);
        GetResult(c.(slots := rest), None)
      else
        WithoutAppendKey(rest, Slot(key, e));
        RemoveAtDistinct(c.slots, i);
        AppendDistinct(rest, Slot(key, e));
        GetResult(c.(slots := rest + [Slot(key, e)]), Some(e.value))
  }

  /**
   * `put(key, value)`: the entry is (re)created with timestamp `now` and
   * becomes the most recently used. Replacing a key never evicts. Inserting
   * a new key appends it and then, if the size exceeds `maxEntries`, drops
   * the eldest entry, expired or not.
   */
  function Put<K(==), V>(c: Cache<K, V>, key: K, value: V, now: nat): (r: Cache<K, V>)
    ensures r.maxEntries == c.maxEntries && r.ttlMillis == c.ttlMillis
    ensures Valid(c) ==> Valid(r)
    ensures Peek(c, key).Some? ==>
      && |r.slots| == |c.slots|
      && r.slots[|r.slots| - 1] == Slot(key, Create(value, now))
      && Without(r.slots, key) == Without(c.slots, key)
    ensures Peek(c, key).None? && |c.slots| < c.maxEntries ==>
      && |r.slots| == |c.slots| + 1
      && r.slots[|r.slots| - 1] == Slot(key, Create(value, now))
      && Without(r.slots, key) == c.slots
    ensures Peek(c, key).None? && |c.slots| >= c.maxEntries && |c.slots| > 0 ==>
      && |r.slots| == |c.slots|
      && r.slots[|r.slots| - 1] == Slot(key, Create(value, now))
      && Without(r.slots, key) == c.slots[1..]
    ensures Peek(c, key).None? && |c.slots| >= c.maxEntries && |c.slots| == 0 ==>
      r.slots == []
  {
    var slot := Slot(key, Create(value, now));
    match Find(c.slots, key)
    case Some(i) =>
      var rest := RemoveAt(c.slots, i);
      WithoutRemoveAt(c.slots, i, key);
      WithoutAppendKey(rest, slot);
      RemoveAtDistinct(c.slots, i);
      AppendDistinct(rest, slot);
      c.(slots := rest + [slot])
    case None =>
      var grown := c.slots + [slot];
      WithoutAppendKey(c.slots, slot);
      AppendDistinct(c.slots, slot);
      if |grown| > c.maxEntries then
        assert |c.slots| > 0 ==> Without(grown[1..], key) == c.slots[1..] by {
          if |c.slots| > 0 {
            assert grown[1..] == c.slots[1..] + [slot];
            WithoutAppendKey(c.slots[1..], slot);
          }
        }
        c.(slots := grown[1..])
      else
        c.(slots := grown)
  }

  /** `size()`: the number of stored keys, expired ones included. */
  function Size<K, V>(c: Cache<K, V>): (n: nat)
    ensures DistinctKeys(c.slots) ==> n == |KeySet(c.slots)|
  {
    DistinctKeysCardinality(c.slots);
    |c.slots|
  }

  // ---------------------------------------------------------------------
  // Sequence facts used by the operations
  // ---------------------------------------------------------------------

  lemma WithoutAppend<K, V>(a: seq<Slot<K, V>>, b: seq<Slot<K, V>>, key: K)
    ensures Without(a + b, key) == Without(a, key) + Without(b, key)
  {
    if |a| == 0 {
      assert a + b == b;
    } else {
      assert (a + b)[1..] == a[1..] + b;
      WithoutAppend(a[1..], b, key);
    }
  }

  /** Appending a slot for `key` does not change the order of the other keys. */
  lemma WithoutAppendKey<K, V>(s: seq<Slot<K, V>>, slot: Slot<K, V>)
    ensures Without(s + [slot], slot.key) == Without(s, slot.key)
  {
    WithoutAppend(s, [slot], slot.key);
  }

  /** Unlinking a slot for `key` does not change the order of the other keys. */
  lemma WithoutRemoveAt<K, V>(s: seq<Slot<K, V>>, i: nat, key: K)
    requires i < |s| && s[i].key == key
    ensures Without(RemoveAt(s, i), key) == Without(s, key)
  {
    assert s == s[..i] + ([s[i]] + s[i + 1..]);
    WithoutAppend(s[..i], [s[i]] + s[i + 1..], key);
    WithoutAppend([s[i]], s[i + 1..], key);
    WithoutAppend(s[..i], s[i + 1..], key);
  }

  /** Unlinking the only slot of a key leaves exactly the other keys. */
  lemma RemoveAtDistinct<K, V>(s: seq<Slot<K, V>>, i: nat)
    requires i < |s|
    ensures DistinctKeys(s) ==> DistinctKeys(RemoveAt(s, i))
    ensures DistinctKeys(s) ==> forall j :: 0 <= j < |RemoveAt(s, i)| ==> RemoveAt(s, i)[j].key != s[i].key
    ensures DistinctKeys(s) ==> RemoveAt(s, i) == Without(s, s[i].key)
  {
    var r := RemoveAt(s, i);
    if DistinctKeys(s) {
      assert forall j :: 0 <= j < |r| ==> r[j] == (if j < i then s[j] else s[j + 1]);
      assert forall j :: 0 <= j < |r| ==> r[j].key != s[i].key;
      WithoutRemoveAt(s, i, s[i].key);
    }
  }

  lemma AppendDistinct<K, V>(s: seq<Slot<K, V>>, slot: Slot<K, V>)
    ensures DistinctKeys(s) && (forall j :: 0 <= j < |s| ==> s[j].key != slot.key) ==>
      DistinctKeys(s + [slot]) && DistinctKeys((s + [slot])[1..])
  {
  }

  lemma {:induction false} DistinctKeysCardinality<K, V>(s: seq<Slot<K, V>>)
    ensures DistinctKeys(s) ==> |KeySet(s)| == |s|
  {
    if |s| > 0 && DistinctKeys(s) {
      var t := s[..|s| - 1];
      DistinctKeysCardinality(t);
      assert KeySet(s) == KeySet(t) + {s[|s| - 1].key};
      assert s[|s| - 1].key !in KeySet(t);
    }
  }
}
