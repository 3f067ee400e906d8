/**
 * The backend service: a cache-aside lookup of a creature's raw JSON, and a
 * keyword search over the list of all creature names.
 *
 * The upstream HTTP client is an oracle from the lower-cased key to the raw
 * JSON (`None` for not-found); the name list is a parameter, already loaded.
 */
module PokemonService {
  import opened Wrappers
  import opened Text
  import opened CacheEntries
  import opened LruCache
  import LruCacheProperties

  /** The upstream client: raw JSON for a key, or `None` where the source gets `null`. */
  type Client = string -> Option<string>

  /** The most names one search returns. */
  const SearchLimit: nat := 10

  /** The cache after a lookup, and the JSON the lookup returns (`None` for `null`). */
  datatype Fetched = Fetched(cache: Cache<string, string>, json: Option<string>)

  /** The cache and client key for a requested name or id. */
  function KeyOf(nameOrId: string): string {
    ToLower(nameOrId)
  }

  /**
   * `getPokemon`: serve from the cache when it holds a live entry for the
   * lower-cased key; otherwise ask the client, and cache what it returns.
   * One clock reading `now` serves both the cache read and the write.
   */
  function GetPokemon(cache: Cache<string, string>, client: Client, nameOrId: string, now: nat): (r: Fetched)
    ensures r.cache.maxEntries == cache.maxEntries && r.cache.ttlMillis == cache.ttlMillis
    ensures Valid(cache) ==> Valid(r.cache)
    ensures r.json.Some? ==>
      || r.json == client(KeyOf(nameOrId))
      || (Peek(cache, KeyOf(nameOrId)).Some? && r.json.value == Peek(cache, KeyOf(nameOrId)).value.value)
    ensures r.json.None? ==> client(KeyOf(nameOrId)).None?
    ensures IsHit(cache, nameOrId, now) ==> r.json == Some(Peek(cache, KeyOf(nameOrId)).value.value)
    ensures !IsHit(cache, nameOrId, now) ==> r.json == client(KeyOf(nameOrId))
  {
    var key := KeyOf(nameOrId);
    var probe := Get(cache, key, now);
    if probe.value.Some? then
      Fetched(probe.cache, probe.value)
    else
      match client(key)
      case None => Fetched(probe.cache, None)
      case Some(json) => Fetched(Put(probe.cache, key, json, now), Some(json))
  }

  /** A live cache entry for the key: the lookup is a hit. */
  predicate IsHit(cache: Cache<string, string>, nameOrId: string, now: nat) {
    var e := Peek(cache, KeyOf(nameOrId));
    e.Some? && !IsExpired(cache, e.value, now)
  }

  /** Names that differ only in letter case are the same request. */
  lemma GetPokemonIgnoresCase(cache: Cache<string, string>, client: Client, a: string, b: string, now: nat)
    requires ToLower(a) == ToLower(b)
    ensures GetPokemon(cache, client, a, now) == GetPokemon(cache, client, b, now)
  {
  }

  /** On a hit the cached JSON is returned and the client is not consulted. */
  lemma HitIgnoresClient(cache: Cache<string, string>, c1: Client, c2: Client, nameOrId: string, now: nat)
    requires IsHit(cache, nameOrId, now)
    ensures GetPokemon(cache, c1, nameOrId, now).json == Some(Peek(cache, KeyOf(nameOrId)).value.value)
    ensures GetPokemon(cache, c1, nameOrId, now) == GetPokemon(cache, c2, nameOrId, now)
  {
  }

  /**
   * On a miss that the client answers with not-found, the result is absent
   * and the cache is as the read left it: unchanged, or without the expired
   * entry the read dropped.
   */
  lemma MissNotFoundLeavesCache(cache: Cache<string, string>, client: Client, nameOrId: string, now: nat)
    requires !IsHit(cache, nameOrId, now) && client(KeyOf(nameOrId)).None?
    ensures GetPokemon(cache, client, nameOrId, now).json.None?
    ensures Peek(cache, KeyOf(nameOrId)).None? ==> GetPokemon(cache, client, nameOrId, now).cache == cache
    ensures Valid(cache) ==>
      GetPokemon(cache, client, nameOrId, now).cache.slots == Without(cache.slots, KeyOf(nameOrId))
  {
    if Valid(cache) && Peek(cache, KeyOf(nameOrId)).None? {
      assert Without(cache.slots, KeyOf(nameOrId)) == cache.slots;
    }
  }

  /**
   * On a miss that the client answers with `json`, the result is `json`, the
   * cache now maps the lower-cased key to it, and a repeat request within the
   * TTL is served from the cache whatever the client would say.
   */
  lemma MissFoundIsCached(
    cache: Cache<string, string>, client: Client, nameOrId: string, json: string,
    now: nat, later: nat, other: Client)
    requires Valid(cache) && cache.maxEntries >= 1
    requires !IsHit(cache, nameOrId, now) && client(KeyOf(nameOrId)) == Some(json)
    requires later <= now + cache.ttlMillis
    ensures GetPokemon(cache, client, nameOrId, now).json == Some(json)
    ensures Peek(GetPokemon(cache, client, nameOrId, now).cache, KeyOf(nameOrId)) == Some(Create(json, now))
    ensures GetPokemon(GetPokemon(cache, client, nameOrId, now).cache, other, nameOrId, later).json == Some(json)
  {
    var key := KeyOf(nameOrId);
    var probe := Get(cache, key, now);
    LruCacheProperties.PutThenGet(probe.cache, key, json, now, later);
    LruCacheProperties.LookupLast(Put(probe.cache, key, json, now).slots);
  }

  // ---------------------------------------------------------------------
  // Search
  // ---------------------------------------------------------------------

  /** The keyword as the search uses it: lower-cased, then trimmed. */
  function NormalizeKeyword(keyword: string): (r: string)
    ensures forall i :: 0 <= i < |r| ==> !IsAsciiUpper(r[i])
    ensures IsTrimOf(r, ToLower(keyword), IsJavaWhitespace)
  {
    var r := JavaTrim(ToLower(keyword));
    TrimKeepsCharacters(r, ToLower(keyword), IsJavaWhitespace);
    r
  }

  /** All names containing `kw`, in list order: the unlimited filter. */
  function Matching(names: seq<string>, kw: string): (r: seq<string>)
    ensures |r| <= |names|
  {
    if |names| == 0 then []
    else (if Contains(names[0], kw) then [names[0]] else []) + Matching(names[1..], kw)
  }

  /** The filter keeps exactly the names that contain `kw`. */
  lemma {:induction false} MatchingMembers(names: seq<string>, kw: string)
    ensures forall x :: x in Matching(names, kw) <==> x in names && Contains(x, kw)
  {
    if |names| > 0 {
      MatchingMembers(names[1..], kw);
      assert forall x :: x in names <==> x == names[0] || x in names[1..];
    }
  }

  /** The filter commutes with concatenation, so it keeps list order. */
  lemma {:induction false} MatchingAppend(a: seq<string>, b: seq<string>, kw: string)
    ensures Matching(a + b, kw) == Matching(a, kw) + Matching(b, kw)
  {
    if |a| == 0 {
      assert a + b == b;
    } else {
      var head := if Contains(a[0], kw) then [a[0]] else [];
      assert (a + b)[0] == a[0] && (a + b)[1..] == a[1..] + b;
      assert Matching(a + b, kw) == head + Matching(a[1..] + b, kw);
      MatchingAppend(a[1..], b, kw);
      assert head + (Matching(a[1..], kw) + Matching(b, kw)) == (head + Matching(a[1..], kw)) + Matching(b, kw);
    }
  }

  /** The first `n` elements of `s`, or all of them when there are fewer: `Stream.limit`. */
  function Take<T>(s: seq<T>, n: nat): (r: seq<T>)
    ensures |r| <= n && r <= s
    ensures |r| == n || r == s
  {
    if |s| <= n then s else s[..n]
  }

  /**
   * `searchPokemon`: the first ten names, in list order, that contain the
   * normalised keyword; nothing for a blank keyword.
   */
  method SearchPokemon(names: seq<string>, keyword: string) returns (result: seq<string>)
    ensures |result| <= SearchLimit
    ensures NormalizeKeyword(keyword) == [] ==> result == []
    ensures NormalizeKeyword(keyword) != [] ==>
      result == Take(Matching(names, NormalizeKeyword(keyword)), SearchLimit)
    ensures forall i :: 0 <= i < |result| ==>
      result[i] in names && Contains(result[i], NormalizeKeyword(keyword))
  {
    var kw := NormalizeKeyword(keyword);
    if kw == [] {
      return [];
    }
    result := FirstMatches(names, kw, SearchLimit);
    MatchingMembers(names, kw);
  }

  /** The first `limit` names containing `kw`, in list order; the stream's filter and limit. */
  method FirstMatches(names: seq<string>, kw: string, limit: nat) returns (result: seq<string>)
    ensures result == Take(Matching(names, kw), limit)
  {
    result := [];
    var i := 0;
    while i < |names| && |result| < limit
      invariant 0 <= i <= |names|
      invariant result == Matching(names[..i], kw)
      invariant |result| <= limit
    {
      assert names[..i + 1] == names[..i] + [names[i]];
      MatchingAppend(names[..i], [names[i]], kw);
      if Contains(names[i], kw) {
        result := result + [names[i]];
      }
      i := i + 1;
    }
    assert names == names[..i] + names[i..];
    MatchingAppend(names[..i], names[i..], kw);
  }

  /** A keyword that is blank after lower-casing and trimming finds nothing. */
  lemma BlankKeywordIff(keyword: string)
    ensures NormalizeKeyword(keyword) == [] <==>
      forall k :: 0 <= k < |keyword| ==> IsJavaWhitespace(keyword[k])
  {
    TrimEmptyIff(ToLower(keyword), IsJavaWhitespace);
    var low := ToLower(keyword);
    assert forall k :: 0 <= k < |keyword| ==> (IsJavaWhitespace(low[k]) <==> IsJavaWhitespace(keyword[k]));
  }
}
