/**
 * The in-memory TTL cache of utils/cache.py.
 *
 * Entries carry an absolute expiry time; `get` counts a hit or a miss and drops an entry it
 * finds expired. Time is a parameter (`now`, seconds as a real) instead of a clock read.
 */
module Cache {
  import opened Wrappers

  const DefaultTtl: int := 300

  datatype CacheEntry<V> = CacheEntry(value: V, expires: real, created: real)

  /** The cache's whole state: the entries and the two counters. */
  datatype CacheState<V> = CacheState(entries: map<string, CacheEntry<V>>, hits: nat, misses: nat)

  datatype CacheStats = CacheStats(entries: nat, hits: nat, misses: nat, totalRequests: nat)

  predicate Expired<V>(e: CacheEntry<V>, now: real) {
    now > e.expires
  }

  /** What `get` returns and the state it leaves. */
  datatype Lookup<V> = Lookup(result: Option<V>, state: CacheState<V>)

  function Fetch<V>(s: CacheState<V>, key: string, now: real): Lookup<V> {
    if key !in s.entries then
      Lookup(None, s.(misses := s.misses + 1))
    else if Expired(s.entries[key], now) then
      Lookup(None, s.(entries := s.entries - {key}, misses := s.misses + 1))
    else
      Lookup(Some(s.entries[key].value), s.(hits := s.hits + 1))
  }

  /** `ttl or default_ttl`: a missing ttl and a ttl of 0 both fall back to the default. */
  function EffectiveTtl(ttl: Option<int>, defaultTtl: int): int {
    match ttl
    case None => defaultTtl
    case Some(t) => if t == 0 then defaultTtl else t
  }

  function Store<V>(s: CacheState<V>, key: string, value: V, ttl: Option<int>, defaultTtl: int,
                  now: real): CacheState<V> {
    s.(entries := s.entries[key := CacheEntry(value, now + EffectiveTtl(ttl, defaultTtl) as real, now)])
  }

  function Remove<V>(s: CacheState<V>, key: string): CacheState<V> {
    s.(entries := s.entries - {key})
  }

  /** The entries `cleanup_expired` keeps: those not yet expired at `now`. */
  function Unexpired<V>(entries: map<string, CacheEntry<V>>, now: real): map<string, CacheEntry<V>> {
    map k | k in entries && !Expired(entries[k], now) :: entries[k]
  }

  function Stats<V>(s: CacheState<V>): (r: CacheStats)
    ensures r.totalRequests == r.hits + r.misses
    ensures r.entries == |s.entries| && r.hits == s.hits && r.misses == s.misses
  {
    CacheStats(|s.entries|, s.hits, s.misses, s.hits + s.misses)
  }

  // ---------------------------------------------------------------- properties

  /** Every `get` is counted exactly once, as a hit exactly when it returns a value. */
  lemma GetCountsOnce<V>(s: CacheState<V>, key: string, now: real)
    ensures var l := Fetch(s, key, now);
      && l.state.hits + l.state.misses == s.hits + s.misses + 1
      && (l.result.Some? <==> l.state.hits == s.hits + 1)
      && (l.result.Some? <==> key in s.entries && !Expired(s.entries[key], now))
  {
  }

  /** `get` changes the entries only by dropping the expired entry it looked up. */
  lemma GetFrame<V>(s: CacheState<V>, key: string, now: real)
    ensures var l := Fetch(s, key, now);
      && l.state.entries.Keys <= s.entries.Keys
      && (forall k :: k in l.state.entries ==> l.state.entries[k] == s.entries[k])
      && (forall k :: k in s.entries && k !in l.state.entries ==> k == key && Expired(s.entries[k], now))
  {
  }

  /** A value set with a positive effective ttl is returned by `get` until it expires, and a hit is counted. */
  lemma GetAfterSet<V>(s: CacheState<V>, key: string, value: V, ttl: Option<int>, defaultTtl: int,
                       now: real, later: real)
    requires now <= later <= now + EffectiveTtl(ttl, defaultTtl) as real
    ensures var l := Fetch(Store(s, key, value, ttl, defaultTtl, now), key, later);
      l.result == Some(value) && l.state.hits == s.hits + 1
  {
  }

  /** After the effective ttl has passed, `get` misses and the entry is gone. */
  lemma GetAfterExpiry<V>(s: CacheState<V>, key: string, value: V, ttl: Option<int>, defaultTtl: int,
                          now: real, later: real)
    requires later > now + EffectiveTtl(ttl, defaultTtl) as real
    ensures var l := Fetch(Store(s, key, value, ttl, defaultTtl, now), key, later);
      l.result == None && key !in l.state.entries && l.state.misses == s.misses + 1
  {
  }

  /** Setting one key leaves every other key's lookup as it was. */
  lemma SetOtherKeys<V>(s: CacheState<V>, key: string, other: string, value: V, ttl: Option<int>,
                        defaultTtl: int, now: real, later: real)
    requires other != key
    ensures Fetch(Store(s, key, value, ttl, defaultTtl, now), other, later).result == Fetch(s, other, later).result
  {
  }

  /** A deleted key misses. */
  lemma GetAfterDelete<V>(s: CacheState<V>, key: string, now: real)
    ensures Fetch(Remove(s, key), key, now).result == None
  {
  }

  /**
   * Cleaning up never changes what a later `get` returns: an entry it removes has already
   * expired, so any later `get` would have missed on it as well.
   */
  lemma CleanupTransparent<V>(s: CacheState<V>, key: string, now: real, later: real)
    requires now <= later
    ensures Fetch(s.(entries := Unexpired(s.entries, now)), key, later).result == Fetch(s, key, later).result
  {
  }

  /** Cleaning up twice at the same time removes nothing more. */
  lemma CleanupIdempotent<V>(entries: map<string, CacheEntry<V>>, now: real)
    ensures Unexpired(Unexpired(entries, now), now) == Unexpired(entries, now)
  {
  }

  // ---------------------------------------------------------------- the object

  class SimpleCache<V> {
    var cache: map<string, CacheEntry<V>>
    const defaultTtl: int
    var hits: nat
    var misses: nat

    ghost function State(): CacheState<V>
      reads this
    {
      CacheState(cache, hits, misses)
    }

    constructor(defaultTtl: int)
      ensures State() == CacheState(map[], 0, 0) && this.defaultTtl == defaultTtl
    {
      cache := map[];
      this.defaultTtl := defaultTtl;
      hits := 0;
      misses := 0;
    }

    method Get(key: string, now: real) returns (r: Option<V>)
      modifies this
      ensures Lookup(r, State()) == Fetch(old(State()), key, now)
    {
      if key !in cache {
        misses := misses + 1;
        return None;
      }
      var entry := cache[key];
      if now > entry.expires {
        cache := cache - {key};
        misses := misses + 1;
        return None;
      }
      hits := hits + 1;
      return Some(entry.value);
    }

    method Set(key: string, value: V, ttl: Option<int>, now: real)
      modifies this`cache
      ensures State() == Store(old(State()), key, value, ttl, defaultTtl, now)
    {
      var t := EffectiveTtl(ttl, defaultTtl);
      cache := cache[key := CacheEntry(value, now + t as real, now)];
    }

    method Delete(key: string)
      modifies this`cache
      ensures State() == Remove(old(State()), key)
    {
      if key in cache {
        cache := cache - {key};
      }
    }

    method Clear()
      modifies this
      ensures State() == CacheState(map[], 0, 0)
    {
      cache := map[];
      hits := 0;
      misses := 0;
    }

    /** Collect the expired keys, then delete them one by one; the counters are untouched. */
    method CleanupExpired(now: real)
      modifies this`cache
      ensures State() == old(State()).(entries := Unexpired(old(cache), now))
    {
      var expiredKeys := set k | k in cache && now > cache[k].expires;
      ghost var before := cache;
      var todo := expiredKeys;
      while todo != {}
        invariant todo <= expiredKeys
        invariant cache == map k | k in before && k !in expiredKeys - todo :: before[k]
        decreases todo
      {
        var k :| k in todo;
        cache := cache - {k};
        todo := todo - {k};
      }
    }

    method GetStats() returns (r: CacheStats)
      ensures r == Stats(State())
    {
      r := CacheStats(|cache|, hits, misses, hits + misses);
    }
  }

  /** The module's shared cache, built with the default ttl of 300 seconds. */
  method NewGlobalCache<V>() returns (c: SimpleCache<V>)
    ensures fresh(c) && c.State() == CacheState(map[], 0, 0) && c.defaultTtl == DefaultTtl
  {
    c := new SimpleCache(DefaultTtl);
  }
}
