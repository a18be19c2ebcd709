/**
 The storage behind the lock: an entry map, two ordered indexes, and a byte
 counter kept by hand. Each locked body is proved against `CacheSpec`, which
 has no index and finds its victims by ranking the entries.
 */
module Cache {
  import opened Basics
  import opened CacheSpec
  import opened CacheIndexes
  import opened CacheMachine

  function SaturatingSub(a: nat, b: nat): nat { if a < b then 0 else a - b }

  class Inner {
    var entries: Entries
    var lru: Lru
    var expiry: Expiry
    var bytes: nat
    var hits: nat
    var misses: nat
    var evictions: nat

    constructor ()
      ensures Indexed() && Abs() == EMPTY_VIEW
    {
      entries, lru, expiry := map[], map[], map[];
      bytes, hits, misses, evictions := 0, 0, 0, 0;
    }

    /** The indexes and the counter say exactly what the map says. */
    ghost predicate Indexed()
      reads this
    {
      LruExact(entries, lru) && ExpiryExact(entries, expiry) && bytes == TotalCost(entries)
    }

    ghost function Abs(): View
      reads this
    {
      View(entries, hits, misses, evictions)
    }

    /** Removes an entry from the map and both indexes. The debit never saturates. */
    method Remove(key: Key) returns (removed: Option<Entry>)
      requires Indexed()
      modifies this`entries, this`lru, this`expiry, this`bytes
      ensures Indexed()
      ensures Abs() == CacheSpec.Remove(old(Abs()), key)
      ensures removed == if key in old(entries) then Some(old(entries)[key]) else None
      ensures removed.Some? ==> bytes + |key| + |removed.value.value| == old(bytes)
      ensures removed.None? ==> bytes == old(bytes)
    {
      if key !in entries {
        assert entries - {key} == entries;
        return None;
      }
      var entry := entries[key];
      TotalCostRemove(entries, key);
      RemoveKeepsIndexes(entries, lru, expiry, key);
      entries := entries - {key};
      lru := lru - {entry.touched};
      if entry.expiresAt.Some? {
        expiry := expiry - {(entry.expiresAt.value, entry.inserted)};
      }
      bytes := SaturatingSub(bytes, Cost(key, entry.value));
      removed := Some(entry);
    }

    /** The body of a lookup. */
    method Get(key: Key, now: Instant, touched: Tick) returns (answer: Option<Bytes>)
      requires Indexed() && FreshTick(entries, touched)
      modifies this
      ensures Indexed()
      ensures (Abs(), answer) == Lookup(old(Abs()), key, now, touched)
    {
      if key in entries && IsLive(entries[key], now) {
        var entry := entries[key];
        var previous := entry.touched;
        RetouchCost(entries, key, touched);
        RetouchKeepsIndexes(entries, lru, expiry, key, touched);
        entries := entries[key := entry.(touched := touched)];
        answer := Some(entry.value);
        if previous in lru {
          var shared := lru[previous];
          lru := (lru - {previous})[touched := shared];
        }
        hits := hits + 1;
      } else if key in entries {
        var _ := Remove(key);
        misses := misses + 1;
        answer := None;
      } else {
        assert entries - {key} == entries;
        misses := misses + 1;
        answer := None;
      }
    }

    /** The body of a write. */
    method Set(key: Key, value: Bytes, expiresAt: Option<Instant>, touched: Tick, now: Instant, lim: Limits)
      requires Indexed() && FreshTick(entries, touched)
      modifies this
      ensures Indexed()
      ensures Abs() == Store(old(Abs()), key, value, expiresAt, touched, now, lim)
    {
      Insert(key, value, expiresAt, touched);
      Evict(now, lim);
    }

    /** The entry goes in under one tick, in the map and both indexes. */
    method Insert(key: Key, value: Bytes, expiresAt: Option<Instant>, touched: Tick)
      requires Indexed() && FreshTick(entries, touched)
      modifies this`entries, this`lru, this`expiry, this`bytes
      ensures Indexed()
      ensures Abs() == old(Abs()).(entries := Written(old(entries), key, value, expiresAt, touched))
      ensures bytes <= old(bytes) + Cost(key, value)
    {
      var size := Cost(key, value);
      var _ := Remove(key);
      ghost var entry := Entry(value, expiresAt, touched, touched);
      TotalCostAdd(entries, key, entry);
      WriteKeepsIndexes(entries, lru, expiry, key, entry);
      assert old(entries)[key := entry] == entries[key := entry];
      bytes := bytes + size;
      lru := lru[touched := key];
      if expiresAt.Some? {
        expiry := expiry[(expiresAt.value, touched) := key];
      }
      entries := entries[key := Entry(value, expiresAt, touched, touched)];
    }

    /** Brings the cache back inside both bounds. */
    method Evict(now: Instant, lim: Limits)
      requires Indexed()
      modifies this
      ensures Indexed()
      ensures Abs() == Evicted(old(Abs()), now, lim)
      ensures |entries| <= lim.maxEntries && bytes <= lim.maxBytes
      ensures forall k :: k in entries ==> k in old(entries) && entries[k] == old(entries)[k]
      ensures evictions == old(evictions) + |set k | k in old(entries) && k !in entries
                && (old(entries)[k].expiresAt.None? || now < old(entries)[k].expiresAt.value)|
    {
      ghost var goal := Evicted(Abs(), now, lim);
      while |entries| > lim.maxEntries || bytes > lim.maxBytes
        invariant Indexed()
        invariant Evicted(Abs(), now, lim) == goal
        decreases |entries|
      {
        ghost var before := Abs();
        ghost var victim := EvictOne(now, lim);
        EvictedStep(before, now, lim, victim);
      }
      KeptWhenWithin(entries, now, lim);
      assert LiveVictims(entries, entries, now) == {};
      EvictedIs(old(Abs()), now, lim);
    }

    /** One turn of the eviction loop, entered only while a bound is exceeded. */
    method EvictOne(now: Instant, lim: Limits) returns (ghost victim: Key)
      requires Indexed() && !Within(entries, lim)
      modifies this
      ensures IsFirst(old(entries), now, victim) && Abs() == GivenUp(old(Abs()), victim, now)
      ensures Indexed() && |entries| < |old(entries)|
    {
      var key, expired := Victim(now, lim);
      victim := key;
      FewerKeys(entries, key);
      var _ := Remove(key);
      if !expired {
        evictions := evictions + 1;
      }
    }

    /** The first dead entry of the expiry index, or else the first of the recency
        index, which is never empty while a bound is exceeded. */
    method Victim(now: Instant, lim: Limits) returns (key: Key, expired: bool)
      requires Indexed() && !Within(entries, lim)
      ensures IsFirst(entries, now, key)
      ensures expired <==> !IsLive(entries[key], now)
    {
      if expiry != map[] && FirstSlot(expiry).0 <= now {
        FirstSlotIsFirst(entries, lru, expiry, now);
        key, expired := expiry[FirstSlot(expiry)], true;
      } else {
        SomethingStored(entries, lru, lim);
        FirstTickIsFirst(entries, lru, expiry, now);
        key, expired := lru[FirstTick(lru)], false;
      }
    }

    method Clear()
      modifies this`entries, this`lru, this`expiry, this`bytes
      ensures Indexed()
      ensures Abs() == CacheSpec.Clear(old(Abs()))
    {
      entries, lru, expiry, bytes := map[], map[], map[], 0;
    }
  }

  datatype CacheError = KeyTooLong(length: nat) | LargerThanCache(size: nat)

  /** The handle every state holds: the storage, its limits, and the counter
      that supplies ticks. `horizon` is the last instant the clock can represent. */
  class Cache {
    const inner: Inner
    const opts: Limits
    const horizon: Instant
    var clock: Tick
    ghost var pending: set<Tick>

    constructor (opts: Limits, horizon: Instant)
      ensures Valid() && State() == START && fresh(inner) && this.opts == opts && this.horizon == horizon
    {
      inner := new Inner();
      this.opts, this.horizon := opts, horizon;
      clock, pending := 0, {};
    }

    ghost function State(): Sys
      reads this, inner
    {
      Sys(inner.Abs(), clock, pending)
    }

    ghost predicate Valid()
      reads this, inner
    {
      inner.Indexed() && Inv(State(), opts)
    }

    method Tick() returns (tick: Tick)
      requires Valid()
      modifies this
      ensures Valid() && tick == old(clock)
      ensures State() == Apply(old(State()), TakeTick, opts)
    {
      StepKeepsInv(State(), TakeTick, opts);
      tick := clock;
      clock := clock + 1;
      pending := pending + {tick};
    }

    /** The locked half of a lookup, whenever it runs. */
    method GetLocked(key: Key, now: Instant, touched: Tick) returns (answer: Option<Bytes>)
      requires Valid() && touched in pending
      modifies this, inner
      ensures Valid() && State() == Apply(old(State()), GetBody(key, now, touched), opts)
      ensures answer == Lookup(old(State()).view, key, now, touched).1
    {
      StepKeepsInv(State(), GetBody(key, now, touched), opts);
      answer := inner.Get(key, now, touched);
      pending := pending - {touched};
    }

    /** The locked half of a write, whenever it runs. */
    method SetLocked(key: Key, value: Bytes, expiresAt: Option<Instant>, touched: Tick, now: Instant)
      requires Valid() && touched in pending && Acceptable(key, value, opts)
      modifies this, inner
      ensures Valid() && State() == Apply(old(State()), SetBody(key, value, expiresAt, touched, now), opts)
    {
      StepKeepsInv(State(), SetBody(key, value, expiresAt, touched, now), opts);
      inner.Set(key, value, expiresAt, touched, now, opts);
      pending := pending - {touched};
    }

    /** `cache:delete`, and `cache:set` with nil. */
    method Delete(key: Key) returns (wasThere: bool)
      requires Valid()
      modifies inner
      ensures Valid() && State() == Apply(old(State()), DeleteBody(key), opts)
      ensures wasThere <==> key in old(inner.entries)
      ensures inner.entries == old(inner.entries) - {key}
    {
      StepKeepsInv(State(), DeleteBody(key), opts);
      var removed := inner.Remove(key);
      wasThere := removed.Some?;
    }

    method Clear()
      requires Valid()
      modifies inner
      ensures Valid() && State() == Apply(old(State()), ClearBody, opts)
      ensures inner.entries == map[] && inner.bytes == 0
      ensures inner.hits == old(inner.hits) && inner.misses == old(inner.misses)
    {
      StepKeepsInv(State(), ClearBody, opts);
      inner.Clear();
    }

    method GetRaw(key: Key, now: Instant) returns (answer: Option<Bytes>)
      requires Valid()
      modifies this, inner
      ensures Valid()
      ensures State() == Apply(Apply(old(State()), TakeTick, opts), GetBody(key, now, old(clock)), opts)
      ensures answer == Lookup(old(State()).view, key, now, old(clock)).1
    {
      var touched := Tick();
      answer := GetLocked(key, now, touched);
    }

    /** The accepted half of a write: its tick, then its locked body. */
    method Write(key: Key, value: Bytes, expiresAt: Option<Instant>, later: Instant)
      requires Valid() && Acceptable(key, value, opts)
      modifies this, inner
      ensures Valid()
      ensures State() == Apply(Apply(old(State()), TakeTick, opts),
                               SetBody(key, value, expiresAt, old(clock), later), opts)
      ensures key in inner.entries ==> inner.entries[key] == Entry(value, expiresAt, old(clock), old(clock))
      ensures opts.maxEntries >= 1 && (expiresAt.None? || expiresAt.value > later) ==> key in inner.entries
    {
      LoneWriteLeaves(State(), key, value, expiresAt, later, opts);
      var touched := Tick();
      SetLocked(key, value, expiresAt, touched, later);
    }

    /** A refused write changes nothing. An accepted one is stored under the next
        tick, to expire its number of seconds later (ten years at the most) or
        never; run on its own, it is still there afterwards unless it was dead on
        arrival or the cache has room for no entry at all. */
    method SetRaw(key: Key, value: Bytes, ttl: Option<nat>, now: Instant, later: Instant)
      returns (result: Result<(), CacheError>)
      requires Valid()
      modifies this, inner
      ensures Valid()
      ensures result.Ok? <==> |key| <= 1024 && |key| + |value| <= opts.maxBytes
      ensures result.Err? ==> State() == old(State())
      ensures result.Ok? ==>
        var seconds := if ttl.Some? then ttl.value else opts.defaultTtl;
        var expiresAt := if seconds == 0 || horizon < End(seconds, now) then None else Some(End(seconds, now));
        && State() == Apply(Apply(old(State()), TakeTick, opts),
                            SetBody(key, value, expiresAt, old(clock), later), opts)
        && (opts.maxEntries >= 1 && (expiresAt.None? || expiresAt.value > later) ==>
             key in inner.entries)
        && (key in inner.entries ==> inner.entries[key] == Entry(value, expiresAt, old(clock), old(clock)))
    {
      if |key| > MAX_KEY_BYTES {
        return Err(KeyTooLong(|key|));
      }
      var size := Cost(key, value);
      if size > opts.maxBytes {
        return Err(LargerThanCache(size));
      }
      var ttl := if ttl.Some? then ttl.value else opts.defaultTtl;
      var expiresAt := Deadline(ttl, now, horizon);
      Write(key, value, expiresAt, later);
      result := Ok(());
    }

    /** Every interleaving of ticks and locked bodies keeps the indexes exact and
        follows the index-free model. */
    method Interleave(steps: seq<Step>)
      requires Valid() && Possible(State(), steps, opts)
      modifies this, inner
      ensures Valid() && State() == RunFrom(old(State()), steps, opts)
    {
      ghost var start := State();
      assert steps[..|steps|] == steps;
      for i := 0 to |steps|
        invariant Valid() && State() == RunFrom(start, steps[..i], opts)
        invariant Possible(start, steps, opts)
      {
        PossiblePrefix(start, steps, i + 1, opts);
        assert steps[..i + 1][..i] == steps[..i];
        match steps[i]
        case TakeTick => var _ := Tick();
        case GetBody(key, now, tick) => var _ := GetLocked(key, now, tick);
        case SetBody(key, value, expiresAt, tick, now) => SetLocked(key, value, expiresAt, tick, now);
        case DeleteBody(key) => var _ := Delete(key);
        case ClearBody => Clear();
      }
      assert steps[..|steps|] == steps;
    }
  }
}
