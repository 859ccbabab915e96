/** The time-to-live cache of generated descriptions, keyed by the exact
    serialized request body. Expired entries are only dropped when read. */
module ResponseCache {
  import opened Wrappers

  /** How long a stored description stays servable: five minutes. */
  const CACHE_TTL_MS: nat := 5 * 60 * 1000

  datatype CacheEntry = CacheEntry(value: string, ts: nat)

  type Cache = map<string, CacheEntry>

  /** What `getCache` answers (`None` is its `null`) and the map it leaves. */
  datatype CacheRead = CacheRead(hit: Option<string>, cache: Cache)

  /** The entry stored under `key` is still servable at `now`. */
  predicate Live(c: Cache, key: string, now: nat) {
    key in c && now - c[key].ts <= CACHE_TTL_MS
  }

  /** `getCache(key)` at `now`. */
  function GetCache(c: Cache, key: string, now: nat): (r: CacheRead)
    ensures Live(c, key, now) ==> r == CacheRead(Some(c[key].value), c)
    ensures key !in c ==> r == CacheRead(None, c)
    ensures key in c && !Live(c, key, now) ==> r.hit == None && r.cache == c - {key}
    // a read never adds or alters an entry; at most it forgets `key`
    ensures r.cache.Keys <= c.Keys && r.cache - {key} == c - {key}
    ensures forall k :: k in r.cache ==> r.cache[k] == c[k]
  {
    if key !in c || now - c[key].ts > CACHE_TTL_MS then
      CacheRead(None, if key in c then c - {key} else c)
    else
      CacheRead(Some(c[key].value), c)
  }

  /** `setCache(key, value)` at `now`: unconditionally replaces the entry. */
  function SetCache(c: Cache, key: string, value: string, now: nat): (c': Cache)
    ensures key in c' && c'[key] == CacheEntry(value, now)
    ensures c' - {key} == c - {key}
    ensures c'.Keys == c.Keys + {key}
  {
    c[key := CacheEntry(value, now)]
  }

  /** A value just stored is served for the whole time-to-live, and the read
      leaves the cache as it was. */
  lemma HitWithinTtl(c: Cache, key: string, value: string, t: nat, t': nat)
    requires t' - t <= CACHE_TTL_MS
    ensures GetCache(SetCache(c, key, value, t), key, t') == CacheRead(Some(value), SetCache(c, key, value, t))
  {
  }

  /** Once the time-to-live has passed, the read misses and removes that one
      entry, leaving every other key as it was. */
  lemma EvictedAfterTtl(c: Cache, key: string, value: string, t: nat, t': nat)
    requires t' - t > CACHE_TTL_MS
    ensures GetCache(SetCache(c, key, value, t), key, t') == CacheRead(None, c - {key})
  {
    var c' := SetCache(c, key, value, t);
    assert c' - {key} == c - {key};
  }

  /** Storing under one key is invisible to reads of any other key. */
  lemma SetLeavesOtherKeys(c: Cache, key: string, other: string, value: string, t: nat, now: nat)
    requires other != key
    ensures GetCache(SetCache(c, key, value, t), other, now).hit == GetCache(c, other, now).hit
  {
  }

  /** The last write wins: a second store replaces the first. */
  lemma LastWriteWins(c: Cache, key: string, v1: string, v2: string, t1: nat, t2: nat)
    ensures SetCache(SetCache(c, key, v1, t1), key, v2, t2) == SetCache(c, key, v2, t2)
  {
  }

  /** Reading twice at the same instant gives the same answer and the same
      map as reading once: eviction happens at most once. */
  lemma ReadIdempotent(c: Cache, key: string, now: nat)
    ensures GetCache(GetCache(c, key, now).cache, key, now) == GetCache(c, key, now)
  {
  }

  /** No stored description is empty. */
  predicate NonEmptyValues(c: Cache) {
    forall k :: k in c ==> c[k].value != ""
  }

  /** A hit on a cache holding only non-empty descriptions is non-empty. */
  lemma HitNonEmpty(c: Cache, key: string, now: nat)
    requires NonEmptyValues(c)
    ensures GetCache(c, key, now).hit.Some? ==> GetCache(c, key, now).hit.value != ""
    ensures NonEmptyValues(GetCache(c, key, now).cache)
  {
  }
}
