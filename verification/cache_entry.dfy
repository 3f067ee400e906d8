/**
 * An immutable cache entry: the cached value together with the clock reading
 * taken when the entry was made. Both fields are final in the source, which
 * an immutable datatype gives for free.
 */
module CacheEntries {

  /** `createdAt` is in milliseconds, like `System.currentTimeMillis()`. */
  datatype CacheEntry<V> = CacheEntry(value: V, createdAt: nat)

  /**
   * The constructor: stores the value and stamps the entry with `now`, the
   * clock reading at construction. `value` and `createdAt` are the getters.
   */
  function Create<V>(value: V, now: nat): (e: CacheEntry<V>)
    ensures e.value == value
    ensures e.createdAt == now
  {
    CacheEntry(value, now)
  }

  /** Two entries made by `Create` are equal exactly when their arguments are. */
  lemma CreateInjective<V>(v1: V, t1: nat, v2: V, t2: nat)
    ensures Create(v1, t1) == Create(v2, t2) <==> v1 == v2 && t1 == t2
  {
  }

  /** Every entry is the one `Create` makes from what its getters return. */
  lemma GettersRoundTrip<V>(e: CacheEntry<V>)
    ensures Create(e.value, e.createdAt) == e
  {
  }
}
