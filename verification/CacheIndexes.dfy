/** The ordered indexes beside the entry map, and what makes them exact. */
module CacheIndexes {
  import opened Basics
  import opened CacheSpec

  type Lru = map<Tick, Key>
  type Slot = (Instant, Tick)
  type Expiry = map<Slot, Key>

  /** `lru` is exactly `{e.touched -> k}` over the entries. */
  ghost predicate LruExact(m: Entries, lru: Lru) {
    && (forall k :: k in m ==> m[k].touched in lru && lru[m[k].touched] == k)
    && (forall t :: t in lru ==> lru[t] in m && m[lru[t]].touched == t)
  }

  /** `expiry` is exactly `{(at, e.inserted) -> k}` over the entries with a deadline. */
  ghost predicate ExpiryExact(m: Entries, expiry: Expiry) {
    && (forall k :: k in m && m[k].expiresAt.Some? ==>
         var slot := (m[k].expiresAt.value, m[k].inserted);
         slot in expiry && expiry[slot] == k)
    && (forall s :: s in expiry ==>
         expiry[s] in m && m[expiry[s]].expiresAt == Some(s.0) && m[expiry[s]].inserted == s.1)
  }

  /** Exact indexes exist for a map exactly when its entries can be told apart by their
      ticks and their slots. */
  lemma IndexesExistIff(m: Entries)
    ensures Distinct(m) <==> exists lru, expiry :: LruExact(m, lru) && ExpiryExact(m, expiry)
  {
    if Distinct(m) {
      var lru: Lru := map k | k in m :: m[k].touched := k;
      var expiry: Expiry := map k | k in m && m[k].expiresAt.Some? :: (m[k].expiresAt.value, m[k].inserted) := k;
      assert LruExact(m, lru) && ExpiryExact(m, expiry);
    }
  }

  lemma RetouchKeepsIndexes(m: Entries, lru: Lru, expiry: Expiry, key: Key, tick: Tick)
    requires LruExact(m, lru) && ExpiryExact(m, expiry) && key in m
    requires forall k :: k in m ==> m[k].touched != tick
    ensures var after := m[key := m[key].(touched := tick)];
      LruExact(after, (lru - {m[key].touched})[tick := key]) && ExpiryExact(after, expiry)
  {
  }

  lemma WriteKeepsIndexes(m: Entries, lru: Lru, expiry: Expiry, key: Key, e: Entry)
    requires LruExact(m, lru) && ExpiryExact(m, expiry) && key !in m
    requires e.touched == e.inserted
    requires forall k :: k in m ==> m[k].touched != e.touched && m[k].inserted != e.inserted
    ensures LruExact(m[key := e], lru[e.touched := key])
    ensures ExpiryExact(m[key := e],
              if e.expiresAt.Some? then expiry[(e.expiresAt.value, e.inserted) := key] else expiry)
  {
  }

  lemma RemoveKeepsIndexes(m: Entries, lru: Lru, expiry: Expiry, key: Key)
    requires LruExact(m, lru) && ExpiryExact(m, expiry) && key in m
    ensures LruExact(m - {key}, lru - {m[key].touched})
    ensures ExpiryExact(m - {key},
              if m[key].expiresAt.Some? then expiry - {(m[key].expiresAt.value, m[key].inserted)} else expiry)
  {
  }

  predicate SlotLeq(a: Slot, b: Slot) {
    a.0 < b.0 || (a.0 == b.0 && a.1 <= b.1)
  }

  lemma {:induction false} LeastSlot(s: set<Slot>) returns (least: Slot)
    requires s != {}
    ensures least in s && forall x :: x in s ==> SlotLeq(least, x)
    decreases |s|
  {
    var first :| first in s;
    var rest := s - {first};
    assert s == rest + {first};
    if rest == {} {
      least := first;
    } else {
      var next := LeastSlot(rest);
      least := if SlotLeq(next, first) then next else first;
    }
  }

  lemma {:induction false} LeastTick(s: set<Tick>) returns (least: Tick)
    requires s != {}
    ensures least in s && forall x :: x in s ==> least <= x
    decreases |s|
  {
    var first :| first in s;
    var rest := s - {first};
    assert s == rest + {first};
    if rest == {} {
      least := first;
    } else {
      var next := LeastTick(rest);
      least := if next <= first then next else first;
    }
  }

  lemma LeastSlotExists(expiry: Expiry)
    requires expiry != map[]
    ensures exists least :: least in expiry && forall s :: s in expiry ==> SlotLeq(least, s)
  {
    var least := LeastSlot(expiry.Keys);
    assert least in expiry;
  }

  lemma LeastTickExists(lru: Lru)
    requires lru != map[]
    ensures exists least :: least in lru && forall t :: t in lru ==> least <= t
  {
    var least := LeastTick(lru.Keys);
    assert least in lru;
  }

  /** The first key of the expiry index. */
  function FirstSlot(expiry: Expiry): (least: Slot)
    requires expiry != map[]
    ensures least in expiry && forall s :: s in expiry ==> SlotLeq(least, s)
  {
    LeastSlotExists(expiry);
    var least :| least in expiry && forall s :: s in expiry ==> SlotLeq(least, s);
    least
  }

  /** The first key of the recency index. */
  function FirstTick(lru: Lru): (least: Tick)
    requires lru != map[]
    ensures least in lru && forall t :: t in lru ==> least <= t
  {
    LeastTickExists(lru);
    var least :| least in lru && forall t :: t in lru ==> least <= t;
    least
  }

  /** While an entry is dead, the first of the expiry index is given up first. */
  lemma FirstSlotIsFirst(m: Entries, lru: Lru, expiry: Expiry, now: Instant)
    requires LruExact(m, lru) && ExpiryExact(m, expiry)
    requires expiry != map[] && FirstSlot(expiry).0 <= now
    ensures IsFirst(m, now, expiry[FirstSlot(expiry)])
    ensures !IsLive(m[expiry[FirstSlot(expiry)]], now)
  {
    var slot := FirstSlot(expiry);
    var f := expiry[slot];
    forall j | j in m && j != f ensures Precedes(m[f], m[j], now) {
      if !IsLive(m[j], now) {
        var other := (m[j].expiresAt.value, m[j].inserted);
        assert other in expiry && expiry[other] == j;
        assert SlotLeq(slot, other) && slot != other;
      }
    }
  }

  /** With no dead entry left, the first of the recency index is given up first. */
  lemma FirstTickIsFirst(m: Entries, lru: Lru, expiry: Expiry, now: Instant)
    requires LruExact(m, lru) && ExpiryExact(m, expiry) && lru != map[]
    requires expiry == map[] || FirstSlot(expiry).0 > now
    ensures IsFirst(m, now, lru[FirstTick(lru)])
    ensures IsLive(m[lru[FirstTick(lru)]], now)
  {
    forall j | j in m ensures IsLive(m[j], now) {
      if m[j].expiresAt.Some? {
        var slot := (m[j].expiresAt.value, m[j].inserted);
        assert slot in expiry;
        assert SlotLeq(FirstSlot(expiry), slot);
      }
    }
    var f := lru[FirstTick(lru)];
    forall j | j in m && j != f ensures Precedes(m[f], m[j], now) {
      assert m[j].touched in lru;
      assert lru[m[j].touched] == j;
    }
  }

  lemma SomethingStored(m: Entries, lru: Lru, lim: Limits)
    requires LruExact(m, lru) && !Within(m, lim)
    ensures lru != map[]
  {
    assert m != map[];
    assert m[Pick(m)].touched in lru;
  }
}
