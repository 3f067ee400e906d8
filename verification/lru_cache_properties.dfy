/**
 * Properties of the LRU cache that relate several calls: the size bound
 * over any history, which entry an insertion evicts, what a read or a write
 * leaves alone, the TTL boundary and the lazy expiry.
 */
module LruCacheProperties {
  import opened Wrappers
  import opened CacheEntries
  import opened LruCache

  // ---------------------------------------------------------------------
  // Lookup facts
  // ---------------------------------------------------------------------

  lemma LookupCons<K, V>(x: Slot<K, V>, t: seq<Slot<K, V>>, k: K)
    ensures Lookup([x] + t, k) == if x.key == k then Some(x.entry) else Lookup(t, k)
  {
    assert ([x] + t)[1..] == t;
  }

  /** Dropping the slots of `key` does not change what any other key maps to. */
  lemma {:induction false} LookupWithout<K, V>(s: seq<Slot<K, V>>, key: K, other: K)
    requires other != key
    ensures Lookup(Without(s, key), other) == Lookup(s, other)
  {
    if |s| > 0 {
      LookupWithout(s[1..], key, other);
      assert s == [s[0]] + s[1..];
      LookupCons(s[0], s[1..], other);
      if s[0].key == key {
        assert Without(s, key) == Without(s[1..], key);
      } else {
        LookupCons(s[0], Without(s[1..], key), other);
      }
    }
  }

  /** In a map, the most recently used slot is what its key maps to. */
  lemma LookupLast<K, V>(s: seq<Slot<K, V>>)
    requires DistinctKeys(s) && |s| > 0
    ensures Lookup(s, s[|s| - 1].key) == Some(s[|s| - 1].entry)
  {
  }

  /** In a map, the eldest key appears nowhere after the head. */
  lemma LookupTailOfMap<K, V>(s: seq<Slot<K, V>>)
    requires DistinctKeys(s) && |s| > 0
    ensures Lookup(s[1..], s[0].key).None?
  {
  }

  lemma LookupTail<K, V>(s: seq<Slot<K, V>>, k: K)
    requires |s| > 0 && s[0].key != k
    ensures Lookup(s[1..], k) == Lookup(s, k)
  {
    assert s == [s[0]] + s[1..];
    LookupCons(s[0], s[1..], k);
  }

  /** A fresh cache holds nothing: every key reads as absent and the read changes nothing. */
  lemma NewReadsAbsent<K, V>(maxEntries: int, ttlMillis: int, key: K, now: nat)
    ensures Peek(New<K, V>(maxEntries, ttlMillis), key).None?
    ensures Get(New<K, V>(maxEntries, ttlMillis), key, now) == GetResult(New(maxEntries, ttlMillis), None)
  {
  }

  // ---------------------------------------------------------------------
  // The size bound over any history
  // ---------------------------------------------------------------------

  datatype Op<K, V> = PutOp(key: K, value: V, now: nat) | GetOp(key: K, now: nat)

  function Apply<K(==), V>(c: Cache<K, V>, op: Op<K, V>): Cache<K, V> {
    match op
    case PutOp(k, v, now) => Put(c, k, v, now)
    case GetOp(k, now) => Get(c, k, now).cache
  }

  /** The cache after the calls in `ops`, in order. */
  function Run<K(==), V>(c: Cache<K, V>, ops: seq<Op<K, V>>): Cache<K, V>
    decreases |ops|
  {
    if |ops| == 0 then c else Run(Apply(c, ops[0]), ops[1..])
  }

  lemma {:induction false} RunPreservesValid<K, V>(c: Cache<K, V>, ops: seq<Op<K, V>>)
    requires Valid(c)
    ensures Valid(Run(c, ops))
    ensures Run(c, ops).maxEntries == c.maxEntries
    decreases |ops|
  {
    if |ops| > 0 {
      RunPreservesValid(Apply(c, ops[0]), ops[1..]);
    }
  }

  /**
   * Starting from an empty cache, no sequence of `get` and `put` calls makes
   * `size()` exceed `maxEntries`; with `maxEntries <= 0` nothing is ever kept.
   */
  lemma SizeNeverExceedsMax<K, V>(maxEntries: int, ttlMillis: int, ops: seq<Op<K, V>>)
    ensures maxEntries >= 0 ==> Size(Run(New(maxEntries, ttlMillis), ops)) <= maxEntries
    ensures maxEntries <= 0 ==> Size(Run(New(maxEntries, ttlMillis), ops)) == 0
  {
    RunPreservesValid(New<K, V>(maxEntries, ttlMillis), ops);
  }

  // ---------------------------------------------------------------------
  // Eviction
  // ---------------------------------------------------------------------

  /**
   * A `put` loses no key but, when it inserts a new key, possibly the
   * eldest one: any key it makes disappear is the head of the access order.
   */
  lemma PutEvictsOnlyTheEldest<K, V>(c: Cache<K, V>, key: K, value: V, now: nat, k: K)
    requires Peek(c, k).Some? && Peek(Put(c, key, value, now), k).None?
    ensures Peek(c, key).None?
    ensures |c.slots| > 0 && k == c.slots[0].key && k != key
  {
    var r := Put(c, key, value, now);
    if |r.slots| > 0 && r.slots[|r.slots| - 1].key == key {
      assert k != key;
    }
    if k != key {
      LookupWithout(r.slots, key, k);
      LookupWithout(c.slots, key, k);
      if Peek(c, key).None? && |c.slots| >= c.maxEntries && |c.slots| > 0 && c.slots[0].key != k {
        LookupTail(c.slots, k);
      }
    }
  }

  /** When a new key arrives at a full cache, the least recently used key is evicted. */
  lemma PutEvictsEldestWhenFull<K, V>(c: Cache<K, V>, key: K, value: V, now: nat)
    requires Valid(c) && Peek(c, key).None?
    requires |c.slots| == c.maxEntries && c.maxEntries > 0
    ensures Peek(Put(c, key, value, now), c.slots[0].key).None?
    ensures Size(Put(c, key, value, now)) == Size(c)
  {
    var r := Put(c, key, value, now);
    var eldest := c.slots[0].key;
    assert eldest != key;
    LookupWithout(r.slots, key, eldest);
    LookupTailOfMap(c.slots);
  }

  /** A key that was evicted reads as absent, and reading it changes nothing. */
  lemma EvictedKeyReadsAbsent<K, V>(c: Cache<K, V>, key: K, value: V, now: nat, later: nat)
    requires Valid(c) && Peek(c, key).None?
    requires |c.slots| == c.maxEntries && c.maxEntries > 0
    ensures Get(Put(c, key, value, now), c.slots[0].key, later).value.None?
    ensures Get(Put(c, key, value, now), c.slots[0].key, later).cache == Put(c, key, value, now)
  {
    PutEvictsEldestWhenFull(c, key, value, now);
  }

  // ---------------------------------------------------------------------
  // What a call leaves alone
  // ---------------------------------------------------------------------

  /** A `get` never changes the entry of any other key, live or expired. */
  lemma GetLeavesOtherKeys<K, V>(c: Cache<K, V>, key: K, now: nat, other: K)
    requires other != key
    ensures Peek(Get(c, key, now).cache, other) == Peek(c, other)
  {
    LookupWithout(Get(c, key, now).cache.slots, key, other);
    LookupWithout(c.slots, key, other);
  }

  /** A `put` changes no other key's entry, except by evicting the eldest. */
  lemma PutLeavesOtherKeys<K, V>(c: Cache<K, V>, key: K, value: V, now: nat, other: K)
    requires other != key
    requires |c.slots| > 0 ==> other != c.slots[0].key
    ensures Peek(Put(c, key, value, now), other) == Peek(c, other)
  {
    var r := Put(c, key, value, now);
    LookupWithout(r.slots, key, other);
    LookupWithout(c.slots, key, other);
    if |c.slots| > 0 {
      LookupTail(c.slots, other);
    }
  }

  /** `put` of a stored key replaces its value, restarts its TTL and keeps the size. */
  lemma PutReplacesExisting<K, V>(c: Cache<K, V>, key: K, value: V, now: nat)
    requires Valid(c) && Peek(c, key).Some?
    ensures Peek(Put(c, key, value, now), key) == Some(Create(value, now))
    ensures Size(Put(c, key, value, now)) == Size(c)
  {
    LookupLast(Put(c, key, value, now).slots);
  }

  // ---------------------------------------------------------------------
  // Expiry
  // ---------------------------------------------------------------------

  /**
   * Expiry only ever sets in: an entry expired at `t1` is expired at every
   * later `t2`. A freshly written entry is live exactly when the TTL is not
   * negative.
   */
  lemma ExpiryIsPermanent<K, V>(c: Cache<K, V>, e: CacheEntry<V>, t1: nat, t2: nat, value: V)
    requires t1 <= t2
    ensures IsExpired(c, e, t1) ==> IsExpired(c, e, t2)
    ensures !IsExpired(c, Create(value, t1), t1) <==> c.ttlMillis >= 0
  {
  }

  /** An entry exactly `ttlMillis` old is still served; one a millisecond older is not. */
  lemma ExpiryBoundaryIsStrict<K, V>(c: Cache<K, V>, key: K, now: nat)
    requires Peek(c, key).Some?
    ensures now - Peek(c, key).value.createdAt == c.ttlMillis ==>
      Get(c, key, now).value == Some(Peek(c, key).value.value)
    ensures now - Peek(c, key).value.createdAt == c.ttlMillis + 1 ==>
      Get(c, key, now).value.None?
  {
  }

  /** Reading an expired entry returns nothing and removes it; everything else stays. */
  lemma ExpiredReadRemoves<K, V>(c: Cache<K, V>, key: K, now: nat, other: K)
    requires Valid(c) && Peek(c, key).Some? && IsExpired(c, Peek(c, key).value, now)
    ensures Get(c, key, now).value.None?
    ensures Peek(Get(c, key, now).cache, key).None?
    ensures Size(Get(c, key, now).cache) == Size(c) - 1
    ensures other != key ==> Peek(Get(c, key, now).cache, other) == Peek(c, other)
  {
    if other != key {
      GetLeavesOtherKeys(c, key, now, other);
    }
    var i := Find(c.slots, key).value;
    RemoveAtDistinct(c.slots, i);
  }

  /**
   * After `put(key, value)` at time `now`, a `get(key)` at any time up to
   * `now + ttlMillis` returns `value`, provided the cache can hold an entry.
   */
  lemma PutThenGet<K, V>(c: Cache<K, V>, key: K, value: V, now: nat, later: nat)
    requires Valid(c) && c.maxEntries >= 1
    requires later <= now + c.ttlMillis
    ensures Get(Put(c, key, value, now), key, later).value == Some(value)
  {
    var r := Put(c, key, value, now);
    LookupLast(r.slots);
  }

  /**
   * Expiry is lazy: reading another key leaves an expired entry in place,
   * where it still counts toward `size()`.
   */
  lemma ExpiredEntryStaysUntilRead<K, V>(c: Cache<K, V>, key: K, now: nat, other: K)
    requires Valid(c) && Peek(c, key).Some? && IsExpired(c, Peek(c, key).value, now)
    requires other != key
    ensures Peek(Get(c, other, now).cache, key) == Peek(c, key)
    ensures key in KeySet(Get(c, other, now).cache.slots)
  {
    GetLeavesOtherKeys(c, other, now, key);
    var r := Get(c, other, now).cache;
    var i := Find(r.slots, key).value;
    assert r.slots[i].key == key;
  }

  /**
   * Eviction does not consult the clock: the store a `put` leaves behind,
   * apart from the new entry's timestamp, is the same at every time, so an
   * expired eldest entry is evicted exactly like a live one.
   */
  lemma EvictionIgnoresExpiry<K, V>(c: Cache<K, V>, key: K, value: V, t1: nat, t2: nat)
    ensures Without(Put(c, key, value, t1).slots, key) == Without(Put(c, key, value, t2).slots, key)
    ensures Size(Put(c, key, value, t1)) == Size(Put(c, key, value, t2))
  {
  }
}
