/** How long an entry lives, over a write and the lookup that follows it. */
module CacheTtl {
  import opened Basics
  import opened CacheSpec
  import Cache

  /** A value is answered until the instant its seconds are over and never after
      it; without seconds, or past the last instant of the clock, it stays. */
  method SetThenGet(cache: Cache.Cache, key: Key, value: Bytes, ttl: Option<nat>,
                    now: Instant, later: Instant, at: Instant)
    returns (answer: Option<Bytes>)
    requires cache.Valid() && later <= at
    requires |key| <= 1024 && |key| + |value| <= cache.opts.maxBytes && cache.opts.maxEntries >= 1
    modifies cache, cache.inner
    ensures cache.Valid()
    ensures
      var seconds := if ttl.Some? then ttl.value else cache.opts.defaultTtl;
      var end := now + (if seconds < 315_360_000 then seconds else 315_360_000) * 1_000_000_000;
      answer == if seconds == 0 || end > cache.horizon || at < end then Some(value) else None
  {
    var _ := cache.SetRaw(key, value, ttl, now, later);
    answer := cache.GetRaw(key, at);
  }
}
