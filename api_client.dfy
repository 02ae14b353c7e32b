/**
  The front end's response cache: a table from request keys to the data
  fetched, the clock reading at which it was stored and its time to live in
  milliseconds.  An entry older than its time to live is dropped the next
  time it is read; invalidation drops every key containing a pattern, or
  everything.  Date.now() is passed in as `now`.
 */
module ApiClient {
  import opened Common

  /** The time to live set() uses when none is given, in milliseconds. */
  const DefaultTtl := 30000

  datatype CacheEntry<T> = CacheEntry(data: T, timestamp: int, ttl: int)

  /** Date.now() - timestamp > ttl: strictly older than the time to live. */
  predicate Expired<T>(e: CacheEntry<T>, now: int)
  {
    now - e.timestamp > e.ttl
  }

  /** The ttl an optional argument stands for. */
  function TtlOrDefault(ttlMs: Option<int>): int
  {
    if ttlMs.Some? then ttlMs.value else DefaultTtl
  }

  /** The table after set(key, data, ttlMs) at clock reading now. */
  function Stored<T>(cache: map<string, CacheEntry<T>>, key: string, data: T, ttlMs: Option<int>, now: int): (r: map<string, CacheEntry<T>>)
    ensures r.Keys == cache.Keys + {key}
    ensures r[key].data == data && r[key].timestamp == now
    ensures ttlMs.None? ==> r[key].ttl == DefaultTtl
    ensures ttlMs.Some? ==> r[key].ttl == ttlMs.value
    ensures forall k :: k in cache && k != key ==> r[k] == cache[k]
  {
    cache[key := CacheEntry(data, now, TtlOrDefault(ttlMs))]
  }

  /** What get(key) answers at clock reading now. */
  function Lookup<T>(cache: map<string, CacheEntry<T>>, key: string, now: int): (r: Option<T>)
    ensures r.Some? <==> key in cache && !Expired(cache[key], now)
    ensures r.Some? ==> r.value == cache[key].data
  {
    if key !in cache then None
    else if Expired(cache[key], now) then None
    else Some(cache[key].data)
  }

  /** The table after get(key) at clock reading now: an expired entry is gone. */
  function AfterLookup<T>(cache: map<string, CacheEntry<T>>, key: string, now: int): (r: map<string, CacheEntry<T>>)
    ensures key in r <==> key in cache && !Expired(cache[key], now)
    ensures forall k :: k in cache && k != key ==> k in r && r[k] == cache[k]
    ensures r.Keys <= cache.Keys
  {
    if key in cache && Expired(cache[key], now) then cache - {key} else cache
  }

  /** `!pattern`: no pattern, or the empty one. */
  predicate ClearsAll(pattern: Option<string>)
  {
    pattern.None? || pattern.value == ""
  }

  /** The table after invalidate(pattern). */
  function Invalidated<T>(cache: map<string, CacheEntry<T>>, pattern: Option<string>): (r: map<string, CacheEntry<T>>)
    ensures ClearsAll(pattern) ==> r == map[]
    ensures !ClearsAll(pattern) ==> forall k :: k in cache ==> (k in r <==> !Contains(k, pattern.value))
    ensures r.Keys <= cache.Keys && forall k :: k in r ==> r[k] == cache[k]
  {
    if ClearsAll(pattern) then map[]
    else map k | k in cache && !Contains(k, pattern.value) :: cache[k]
  }

  /** The cache, a mutable table. */
  class ApiCache<T> {
    var cache: map<string, CacheEntry<T>>

    constructor ()
      ensures cache == map[]
    {
      cache := map[];
    }

    /** set: stores (or overwrites) the entry for key, stamped with now. */
    method Set(key: string, data: T, ttlMs: Option<int>, now: int)
      modifies this
      ensures cache == Stored(old(cache), key, data, ttlMs, now)
    {
      cache := cache[key := CacheEntry(data, now, TtlOrDefault(ttlMs))];
    }

    /** get: the stored data while fresh; an expired entry is deleted and null returned. */
    method Get(key: string, now: int) returns (r: Option<T>)
      modifies this
      ensures r == Lookup(old(cache), key, now)
      ensures cache == AfterLookup(old(cache), key, now)
    {
      if key !in cache {
        return None;
      }
      var entry := cache[key];
      if now - entry.timestamp > entry.ttl {
        cache := cache - {key};
        return None;
      }
      return Some(entry.data);
    }

    /**
      invalidate: no (or an empty) pattern clears the table; otherwise the
      keys are visited one by one and those containing the pattern deleted.
     */
    method Invalidate(pattern: Option<string>)
      modifies this
      ensures cache == Invalidated(old(cache), pattern)
    {
      if pattern.None? || pattern.value == "" {
        cache := map[];
        return;
      }
      var p := pattern.value;
      var pending := cache.Keys;
      while pending != {}
        invariant pending <= old(cache).Keys
        invariant cache.Keys <= old(cache).Keys
        invariant forall k :: k in cache ==> cache[k] == old(cache)[k]
        invariant forall k :: k in old(cache) ==> (k in cache <==> (k in pending || !Contains(k, p)))
        decreases |pending|
      {
        var k :| k in pending;
        if Contains(k, p) {
          cache := cache - {k};
        }
        pending := pending - {k};
      }
      assert cache == Invalidated(old(cache), pattern) by {
        var r := Invalidated(old(cache), pattern);
        assert cache.Keys == r.Keys;
      }
    }
  }

  // ---------------------------------------------------------------------
  // Properties of the cache

  /** A set entry is read back unchanged until its time to live has run out, the last millisecond included. */
  lemma SetThenGet<T>(cache: map<string, CacheEntry<T>>, key: string, data: T, ttlMs: Option<int>, now: int, later: int)
    requires now <= later <= now + TtlOrDefault(ttlMs)
    ensures Lookup(Stored(cache, key, data, ttlMs, now), key, later) == Some(data)
  {
  }

  /** One millisecond past its time to live, a set entry reads as absent and is dropped. */
  lemma SetThenExpire<T>(cache: map<string, CacheEntry<T>>, key: string, data: T, ttlMs: Option<int>, now: int, later: int)
    requires later > now + TtlOrDefault(ttlMs)
    ensures Lookup(Stored(cache, key, data, ttlMs, now), key, later) == None
    ensures AfterLookup(Stored(cache, key, data, ttlMs, now), key, later) == cache - {key}
  {
    var s := Stored(cache, key, data, ttlMs, now);
    assert s - {key} == cache - {key};
  }

  /** Reading twice at the same clock reading answers the same both times. */
  lemma GetIsStable<T>(cache: map<string, CacheEntry<T>>, key: string, now: int)
    ensures Lookup(AfterLookup(cache, key, now), key, now) == Lookup(cache, key, now)
    ensures AfterLookup(AfterLookup(cache, key, now), key, now) == AfterLookup(cache, key, now)
  {
  }

  /** A key contains itself, so invalidating with a key removes that key's entry. */
  lemma InvalidateOwnKey<T>(cache: map<string, CacheEntry<T>>, key: string)
    ensures key !in Invalidated(cache, Some(key))
  {
    if key != "" {
      ContainsAt(key, key, 0);
    }
  }

  /** Invalidating twice with the same pattern changes nothing the second time. */
  lemma InvalidateIdempotent<T>(cache: map<string, CacheEntry<T>>, pattern: Option<string>)
    ensures Invalidated(Invalidated(cache, pattern), pattern) == Invalidated(cache, pattern)
  {
    var once := Invalidated(cache, pattern);
    var twice := Invalidated(once, pattern);
    assert twice.Keys == once.Keys;
  }

  // ---------------------------------------------------------------------
  // Cache keys

  /**
    createCacheKey: the url, a colon and the JSON text of the parameters,
    "{}" when there are none.  JSON.stringify is not modelled: the
    parameters arrive as their JSON text.
   */
  function CreateCacheKey(url: string, paramsJson: Option<string>): (r: string)
    ensures |r| > |url| && r[..|url|] == url && r[|url|] == ':'
    ensures paramsJson.None? ==> r[|url| + 1..] == "{}"
  {
    url + ":" + (if paramsJson.Some? then paramsJson.value else "{}")
  }

  /** The position of the first colon of s, or |s|. */
  function FirstColon(s: string): (r: nat)
    ensures r <= |s|
    ensures forall i :: 0 <= i < r ==> s[i] != ':'
    ensures r < |s| ==> s[r] == ':'
  {
    if s == [] then 0
    else if s[0] == ':' then 0
    else 1 + FirstColon(s[1..])
  }

  /** The colon-free prefix of s up to its first colon is found at exactly that length. */
  lemma {:induction false} FirstColonAt(s: string, n: nat)
    requires n < |s| && s[n] == ':'
    requires forall i :: 0 <= i < n ==> s[i] != ':'
    ensures FirstColon(s) == n
    decreases n
  {
    if n > 0 {
      FirstColonAt(s[1..], n - 1);
    }
  }

  /**
    Cache keys of colon-free urls tell requests apart: equal keys come from
    the same url with the same parameters.
   */
  lemma CacheKeyInjective(url1: string, p1: Option<string>, url2: string, p2: Option<string>)
    requires forall i :: 0 <= i < |url1| ==> url1[i] != ':'
    requires forall i :: 0 <= i < |url2| ==> url2[i] != ':'
    requires CreateCacheKey(url1, p1) == CreateCacheKey(url2, p2)
    ensures url1 == url2
    ensures (if p1.Some? then p1.value else "{}") == (if p2.Some? then p2.value else "{}")
  {
    var k := CreateCacheKey(url1, p1);
    FirstColonAt(k, |url1|);
    FirstColonAt(k, |url2|);
    assert url1 == k[..|url1|] == url2;
    assert k[|url1| + 1..] == (if p1.Some? then p1.value else "{}");
    assert CreateCacheKey(url2, p2)[|url2| + 1..] == (if p2.Some? then p2.value else "{}");
  }

  /** Invalidating with a non-empty url drops every cached response for it, whatever its parameters. */
  lemma InvalidateByUrl<T>(cache: map<string, CacheEntry<T>>, url: string, paramsJson: Option<string>)
    requires url != ""
    ensures CreateCacheKey(url, paramsJson) !in Invalidated(cache, Some(url))
  {
    ContainsAt(CreateCacheKey(url, paramsJson), url, 0);
  }
}
