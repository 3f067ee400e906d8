# Pokédex core, modelled in Dafny

The Pokédex is a small web application. Its Spring backend proxies a public
creature-data API, and its single-page frontend renders one creature card
per search. This project models the three parts of it that hold sequential
logic:

- **The TTL-bounded LRU cache** (`LruCache`, `CacheEntry`). The store is an
  access-ordered `LinkedHashMap` capped at `maxEntries`. Here it is a
  sequence of `Slot(key, CacheEntry(value, createdAt))`, ordered from least
  to most recently accessed. `get` and `put` move the touched key to the
  end. Inserting a new key appends it, and if the size then exceeds
  `maxEntries`, the head (the eldest entry) is evicted. Replacing an existing
  key never evicts. An entry whose age is strictly greater than `ttlMillis`
  reads as absent, and that `get` removes it. Until then, expired entries
  stay in the store, count toward `size()`, and can be evicted like live
  ones. The wall clock is an explicit argument `now`. `maxEntries` and
  `ttlMillis` are unbounded integers and may be negative, as the Java
  `int`/`long` may be. With `maxEntries <= 0` the cache keeps nothing: the
  new entry is itself the eldest and is evicted at once.
- **The service** (`PokemonService`). `getPokemon` is a cache-aside lookup
  on the lower-cased name. The upstream client is a function from that key
  to `Option<string>`, where `None` stands for Java's `null`.
  `searchPokemon` lower-cases and trims the keyword. A blank keyword gives
  the empty list. Otherwise it returns the first ten names, in list order,
  that contain the keyword. The name list is a parameter.
- **The page** (`frontend/app.js`). `doSearch` is modelled as a function
  from the raw input and a backend oracle to the lookups it issues and what
  the page then shows. It sends the whole trimmed input as one lookup
  (`frontend/app.js:27-36`). `renderPokemon` is modelled as a function from a
  record to a `Card`. That covers the id label, sprite choice, tags, base
  experience text, ability labels, stat labels and stat-bar widths.

The Java and JavaScript string primitives that these parts rely on
(`toLowerCase`, both `trim`s, `contains`, `replace`, `padStart`,
`String(number)`) are in module `Text`. Each has a contract stating what it
computes.

Files: `wrappers.dfy` (Option), `text.dfy`, `cache_entry.dfy`,
`lru_cache.dfy`, `lru_cache_properties.dfy`, `pokemon_service.dfy` and
`app.dfy`.

## Model

| member | source | states |
|---|---|---|
| CacheEntries.Create | backend/src/main/java/com/example/pokedex/cache/CacheEntry.java:7-10 | The new entry holds exactly the given value, stamped with the clock reading at construction. |
| CacheEntries.GettersRoundTrip | backend/src/main/java/com/example/pokedex/cache/CacheEntry.java:12-18 | The getters return the stored value and timestamp unchanged: rebuilding an entry from them gives the same entry. |
| CacheEntries.CreateInjective | backend/src/main/java/com/example/pokedex/cache/CacheEntry.java:4-10 | Two entries are equal exactly when they were built from the same value and the same time, since both fields are final. |
| LruCache.New | backend/src/main/java/com/example/pokedex/cache/LruCache.java:13-23 | A new cache is empty, satisfies the store invariant (distinct keys, size within the bound) and keeps the given limits. |
| LruCacheProperties.NewReadsAbsent | backend/src/main/java/com/example/pokedex/cache/LruCache.java:13-23 | A freshly constructed cache holds no key: every read reports absent and leaves the cache unchanged. |
| LruCache.Find | backend/src/main/java/com/example/pokedex/cache/LruCache.java:26 | The store lookup finds the first slot holding the key, or reports that no slot holds it. |
| LruCache.Get | backend/src/main/java/com/example/pokedex/cache/LruCache.java:25-35 | A missing key gives null and changes nothing. A live entry's value is returned, its key becomes most recently used, and the other keys keep their order. An expired entry gives null and only that key is removed. The invariant is preserved. |
| LruCache.Put | backend/src/main/java/com/example/pokedex/cache/LruCache.java:37-39 | The key becomes most recently used, with the new value and timestamp `now`. Replacing a key keeps the size and the order of the others. A new key is appended when there is room. When the cache is full, the eldest entry is dropped and nothing else. The invariant is preserved. |
| LruCache.Size | backend/src/main/java/com/example/pokedex/cache/LruCache.java:46-48 | In a store with distinct keys, the size is the number of stored keys, expired ones included. |
| LruCacheProperties.RunPreservesValid | backend/src/main/java/com/example/pokedex/cache/LruCache.java:17-39 | Any sequence of gets and puts preserves distinct keys and the size bound. |
| LruCacheProperties.SizeNeverExceedsMax | backend/src/main/java/com/example/pokedex/cache/LruCache.java:17-22 | Starting from empty, `size()` never exceeds `maxEntries` when that is non-negative. The cache stays empty when it is not positive. |
| LruCacheProperties.PutEvictsOnlyTheEldest | backend/src/main/java/com/example/pokedex/cache/LruCache.java:17-22 | A put loses at most one key. Any key it loses is the eldest, and only when a new key is inserted. |
| LruCacheProperties.PutEvictsEldestWhenFull | backend/src/main/java/com/example/pokedex/cache/LruCache.java:17-21 | A new key arriving at a full cache evicts the least recently accessed key and keeps the size. |
| LruCacheProperties.EvictedKeyReadsAbsent | backend/src/main/java/com/example/pokedex/cache/LruCache.java:26-29 | After it is evicted, the eldest key reads as null, and that read leaves the store unchanged. |
| LruCacheProperties.GetLeavesOtherKeys | backend/src/main/java/com/example/pokedex/cache/LruCache.java:25-34 | A get never changes another key's entry, whether that entry is live or expired. |
| LruCacheProperties.PutLeavesOtherKeys | backend/src/main/java/com/example/pokedex/cache/LruCache.java:37-39 | A put changes no other key's entry, except the eldest one it may evict. |
| LruCacheProperties.PutReplacesExisting | backend/src/main/java/com/example/pokedex/cache/LruCache.java:37-39 | A put of a stored key replaces the value, restarts the TTL from `now`, and leaves the size unchanged. |
| LruCacheProperties.ExpiryBoundaryIsStrict | backend/src/main/java/com/example/pokedex/cache/LruCache.java:41-44 | An entry whose age equals `ttlMillis` is still returned. One a millisecond older is not. |
| LruCacheProperties.ExpiryIsPermanent | backend/src/main/java/com/example/pokedex/cache/LruCache.java:41-44 | States what `IsExpired` (`age > ttlMillis`) means over time: an entry expired at one time is expired at every later time, and a freshly written entry is live exactly when `ttlMillis` is not negative. |
| LruCacheProperties.ExpiredReadRemoves | backend/src/main/java/com/example/pokedex/cache/LruCache.java:30-33 | Reading an expired entry returns null, removes that key, shrinks the size by one, and leaves every other key's entry as it was. |
| LruCacheProperties.PutThenGet | backend/src/main/java/com/example/pokedex/cache/LruCache.java:25-39 | After `put(k, v)` at time `t`, `get(k)` at any time up to `t + ttlMillis` returns `v`, for a cache that can hold an entry. |
| LruCacheProperties.ExpiredEntryStaysUntilRead | backend/src/main/java/com/example/pokedex/cache/LruCache.java:25-35 | Expiry is lazy: reading another key leaves an expired entry in the store, where it still counts. |
| LruCacheProperties.EvictionIgnoresExpiry | backend/src/main/java/com/example/pokedex/cache/LruCache.java:17-21 | What a put keeps or evicts does not depend on the clock, so an expired eldest entry is evicted exactly like a live one. |
| PokemonService.GetPokemon | backend/src/main/java/com/example/pokedex/service/PokemonService.java:29-47 | On a hit, meaning a live entry for the lower-cased key, the cached JSON is returned. On a miss, the result is the client's answer for that key, whatever the cache bound, and null only when the client answers null. The cache invariant and the limits are preserved. |
| PokemonService.GetPokemonIgnoresCase | backend/src/main/java/com/example/pokedex/service/PokemonService.java:30 | Names that lower-case to the same key give identical results and identical caches. |
| PokemonService.HitIgnoresClient | backend/src/main/java/com/example/pokedex/service/PokemonService.java:33-36 | On a cache hit, the cached JSON is returned, and the outcome is the same whatever the client would answer. |
| PokemonService.MissNotFoundLeavesCache | backend/src/main/java/com/example/pokedex/service/PokemonService.java:39-42 | On a miss the client answers with null, the result is null and nothing is cached. The store loses at most the expired entry that the read dropped. |
| PokemonService.MissFoundIsCached | backend/src/main/java/com/example/pokedex/service/PokemonService.java:39-46 | On a miss the client answers with `j`, the result is `j` and the cache maps the lower-cased key to `j` at `now`. A repeat request within the TTL returns `j` from the cache, whatever the client says. |
| PokemonService.SearchPokemon | backend/src/main/java/com/example/pokedex/service/PokemonService.java:49-60 | At most ten names are returned, each a listed name containing the normalised keyword. A blank keyword gives nothing. Otherwise the result is the first ten matches, or all of them if there are fewer, in list order. |
| PokemonService.FirstMatches | backend/src/main/java/com/example/pokedex/service/PokemonService.java:56-59 | The filter-then-limit loop returns exactly the first `limit` matching names, in list order. |
| PokemonService.Take | backend/src/main/java/com/example/pokedex/service/PokemonService.java:58 | `limit(n)` returns a prefix of the stream with at most `n` elements, and it has exactly `n` unless it is the whole stream. |
| PokemonService.MatchingMembers | backend/src/main/java/com/example/pokedex/service/PokemonService.java:57 | `Matching`, the unlimited filter, keeps a name exactly when it is in the list and contains the keyword. |
| PokemonService.MatchingAppend | backend/src/main/java/com/example/pokedex/service/PokemonService.java:56-57 | `Matching` distributes over concatenation, so the filter keeps list order. |
| PokemonService.BlankKeywordIff | backend/src/main/java/com/example/pokedex/service/PokemonService.java:50-53 | The normalised keyword is empty exactly when every character of the keyword is at most U+0020. |
| PokemonService.NormalizeKeyword | backend/src/main/java/com/example/pokedex/service/PokemonService.java:50 | The search keyword has no upper-case ASCII letter and is the Java trim of the lower-cased keyword. |
| Text.ToLower | backend/src/main/java/com/example/pokedex/service/PokemonService.java:30 | Lower-casing keeps the length, leaves no upper-case ASCII letter, and changes no other character. |
| Text.TrimIsUnique | backend/src/main/java/com/example/pokedex/service/PokemonService.java:50 | A string has exactly one trim: the infix with only whitespace around it and no whitespace at either end. |
| Text.Trim | backend/src/main/java/com/example/pokedex/service/PokemonService.java:50 | The result is the infix of the input with only whitespace before and after it and no whitespace at either end. By `TrimIsUnique`, that determines it. |
| Text.JavaTrim | backend/src/main/java/com/example/pokedex/service/PokemonService.java:50 | Java `trim()`: the trim of the input, where whitespace is every character up to U+0020. |
| Text.JsTrim | frontend/app.js:27 | JavaScript `trim()`: the trim of the input, where whitespace is the WhiteSpace and LineTerminator set. |
| Text.TrimKeepsCharacters | backend/src/main/java/com/example/pokedex/service/PokemonService.java:50 | Trimming only removes characters: every character of the trim occurs in the input. |
| Text.TrimEmptyIff | frontend/app.js:27-28 | The trimmed input is empty exactly when every character is whitespace. |
| Text.TrimIdempotent | frontend/app.js:27 | Trimming an already trimmed string changes nothing. |
| Text.Contains | backend/src/main/java/com/example/pokedex/service/PokemonService.java:57 | `contains` holds exactly when the keyword occurs at some index of the name. |
| Text.IndexOf | backend/src/main/java/com/example/pokedex/service/PokemonService.java:57 | The search returns the first index where the pattern occurs, or reports that it occurs nowhere. |
| Text.ReplaceFirst | frontend/app.js:112 | With no occurrence the string is unchanged. Otherwise only the first occurrence is replaced. |
| Text.PadStart | frontend/app.js:58 | The result is `max(width, length)` long, ends with the original string and is filled with the pad character before it. |
| Text.NatToStringRoundTrip | frontend/app.js:58 | Reading the decimal digits of a number back gives the number. |
| Text.IntToStringRoundTrip | frontend/app.js:96 | Parsing the decimal text of an integer, sign included, gives the integer back. |
| Text.IntToString | frontend/app.js:58 | `String(n)` is a canonical numeral: digits with no leading zero, preceded by `-` exactly when `n` is negative. |
| Text.CanonicalDigitsRoundTrip | frontend/app.js:58 | Canonical digit strings are exactly the renderings of naturals: rendering the number a canonical digit string denotes gives the string back. |
| Text.CanonicalNumeralRoundTrip | frontend/app.js:58 | Every canonical numeral reads as an integer whose `String(n)` is that numeral. With `IntToStringRoundTrip`, `IntToString` and `ParseInt` are inverse bijections between integers and canonical numerals. |
| Text.ZeroValueDigits | frontend/app.js:58 | A digit string denoting 0 consists only of zeros, so a canonical numeral with a non-zero first digit is never 0. |
| App.TotalBaseStats | frontend/app.js:76-79 | The left-to-right `reduce` from 0 equals the sum of all stat values, where a missing value counts as 0. |
| App.MissingStatCountsAsZero | frontend/app.js:77 | `StatValue` (`stat.base_stat || 0`): a missing `base_stat` contributes to the total exactly what a 0 does. |
| App.TagsSpec | frontend/app.js:80-90 | The tag list `Tags`: the first tag is always `"{total} total base stats"`. "Pseudo-legendary vibes" is present iff total >= 600, "Dragon type" iff some type is "dragon", and "Has hidden ability" iff some ability is hidden. The tags keep that fixed order. |
| App.IdLabel | frontend/app.js:58 | The label is `#` followed by the decimal id, left-padded with `0` to at least three characters. |
| App.IdLabelUnpaddedFrom100 | frontend/app.js:58 | Ids of 100 and above, which have three or more digits, are not padded. |
| App.IdLabelExample | frontend/app.js:58 | Id 25 shows as `#025` and id 7 as `#007`. |
| App.IdLabelRoundTrip | frontend/app.js:58 | For a non-negative id, the digits after `#` read back as the id, since padding zeros do not change the value. |
| App.Sprite | frontend/app.js:68-71 | The sprite is the official artwork if truthy, else the default front sprite if truthy. It is empty exactly when neither is truthy. |
| App.AbilityLabel | frontend/app.js:101 | The label starts with the ability name and is longer than the name iff the ability is hidden. The extra text is `" (hidden)"`. |
| App.BaseExperienceLabel | frontend/app.js:96 | The text is `"-"` exactly when base experience is missing or null. Otherwise it is a canonical decimal numeral, with no leading zero and no `-0`, that parses back to the value. By `Text.CanonicalNumeralRoundTrip` that is exactly `String(v)`. |
| App.BaseExperienceOfZero | frontend/app.js:96 | A base experience of 0 is shown as "0", not as the dash. |
| App.StatLabelUnchangedWithoutPrefix | frontend/app.js:112 | `StatLabel`: a stat name that does not contain "special-" is shown unchanged. |
| App.StatLabelOfSpecial | frontend/app.js:112 | `StatLabel`: a name that starts with "special-" has that prefix replaced by "sp ", and the rest is left unchanged. |
| App.StatLabelRewritesOnlyFirst | frontend/app.js:112 | In "special-special-", only the first "special-" is rewritten. |
| App.BarWidth | frontend/app.js:119-121 | The width is at most 100 and equals 100 exactly when the value is at least 180. Below that it is proportional, `val * 100 / 180`, and it is non-negative for non-negative values. |
| App.BarWidthExamples | frontend/app.js:120 | A stat of 200 gives width 100 (clipped, not 111.1), and 90 gives 50. |
| App.BarWidthMonotone | frontend/app.js:120 | A larger stat never draws a shorter bar. |
| App.RenderPokemon | frontend/app.js:56-137 | The card has one ability label per ability and one stat row per stat. Every bar is at most 100 wide. Stat values treat missing as 0. Each ability label starts with the ability's name, and the first tag is the total. |
| App.DoSearch | frontend/app.js:26-54 | No lookup is issued exactly when the input is all whitespace, and then the validation message is shown. Otherwise exactly one lookup is issued, for the input with its surrounding whitespace stripped. A card is shown iff that lookup yields a record, and it is that record's card; a failed lookup shows the not-found message. |
| App.LookupKeyIsTrimmed | frontend/app.js:27-36 | The single lookup is `trim()` of the input. Searching again for that key gives the same outcome. |

## Left out

- `synchronized` on the cache methods, and the double-checked locking around the name list in `getPokemonNames`: these exist for concurrency, and the model is single-threaded with a name list already loaded.
- `fetchPokemonNames`: pagination over the remote list endpoint and Jackson JSON parsing are network and library work. The method also passes a full URL to the client, which prefixes its own base path, so what it returns depends on the remote service.
- `PokeApiClient`: an HTTP client. It is replaced by an oracle from the lower-cased key to `Option<string>`, where `None` is the not-found case that `getPokemonRaw` turns into `null`. Its own second `toLowerCase` is the identity on an already lower-cased key.
- PokemonService.GetPokemon: any client failure other than not-found (another HTTP status, an I/O error) throws out of `getPokemonRaw` and so out of `getPokemon`, before the `put`. The model has no exceptions. After such a failure the cache is what the `None` case leaves: only the expired entry the read dropped is gone.
- `PokemonController` and `server.py`: HTTP routing, the 404 body and static-file serving.
- The DOM work, event listeners, `fetch`/promise chaining, `setLoading` and `console.error` in `frontend/app.js`. `showError` and rendering are represented by the `Screen` value that `DoSearch` returns. `CardShown` names the record, and `RenderPokemon` gives the card built from it.
- `encodeURIComponent`: the modelled lookup carries the trimmed identifier itself, not its percent-encoded form.
- Height and weight display (`toFixed(1)`): float-to-string formatting with JavaScript rounding.
- Text.IntToString: JavaScript numbers are doubles, but the model renders unbounded integers in plain decimal. `String(n)` switches to exponent form from 1e21, and integers above 2^53 are not exact, so the stat total summed by `reduce` could round. Ids and stats are far below these bounds.
- Text.ToLower: maps only the ASCII letters. Java's locale-sensitive, full Unicode case mapping is not modelled.
- App.BarWidth: computed in exact real arithmetic. JavaScript's double rounding is not modelled.
- App.RenderPokemon: its contract covers the shape of the card. The per-field values are stated by the members for each field.
- PokemonService.GetPokemon: one clock reading `now` is used for both the cache read and the cache write. The source reads the clock twice, so a real entry may be stamped a few milliseconds later.
- LruCache.Get: times are unbounded naturals, so the `long` subtraction `now - createdAt` cannot overflow as it could in Java for absurd clock values.
- Null keys and null values in the cache: the service never stores a null value, and keys are never null.
- Record fields that JavaScript would hold as non-integral numbers, such as an `id` or a `base_stat` with a fractional part: ids and stat values are integers, and a missing value is `None`.
