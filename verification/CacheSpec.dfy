/**
 The shared cache as its callers see it: one map of entries, no index.
 Eviction is given in closed form (`Kept`) by ranking the entries.
 */
module CacheSpec {
  import opened Basics

  type Key = Bytes
  type Tick = nat
  type Instant = int

  const MAX_KEY_BYTES: nat := 1024
  const MAX_TTL_SECS: nat := 10 * 365 * 24 * 60 * 60

  datatype Limits = Limits(maxEntries: nat, maxBytes: nat, defaultTtl: nat)

  /** `touched` is the tick of the last read or write, `inserted` of the write. */
  datatype Entry = Entry(value: Bytes, expiresAt: Option<Instant>, touched: Tick, inserted: Tick)

  type Entries = map<Key, Entry>

  /** Key and value both count against the byte bound. */
  function Cost(key: Key, value: Bytes): nat { |key| + |value| }

  predicate IsLive(e: Entry, now: Instant) {
    e.expiresAt.None? || e.expiresAt.value > now
  }

  /** The instant at which `seconds` counted from `now` are over, in nanoseconds;
      more than ten years count as ten. */
  function End(seconds: nat, now: Instant): (end: Instant)
    ensures seconds <= 315_360_000 ==> end == now + seconds * 1_000_000_000
    ensures 315_360_000 < seconds ==> end == now + 315_360_000_000_000_000
  {
    now + Least(seconds, MAX_TTL_SECS) * NANOS
  }

  /** When an entry written at `now` expires; `horizon` is the last instant the
      clock can represent, and an instant past it means the entry never expires. */
  function Deadline(ttl: nat, now: Instant, horizon: Instant): Option<Instant> {
    if ttl == 0 || horizon < End(ttl, now) then None else Some(End(ttl, now))
  }

  // ---------------------------------------------------------------- cost

  ghost function Pick(m: Entries): Key
    requires m != map[]
    ensures Pick(m) in m
  {
    var k :| k in m; k
  }

  ghost function TotalCost(m: Entries): nat
    decreases |m|
  {
    if m == map[] then 0
    else
      var k := Pick(m);
      Cost(k, m[k].value) + TotalCost(m - {k})
  }

  lemma {:induction false} TotalCostRemove(m: Entries, k: Key)
    requires k in m
    ensures TotalCost(m) == Cost(k, m[k].value) + TotalCost(m - {k})
    decreases |m|
  {
    var p := Pick(m);
    if p != k {
      TotalCostRemove(m - {p}, k);
      TotalCostRemove(m - {k}, p);
      assert m - {p} - {k} == m - {k} - {p};
    }
  }

  lemma TotalCostAdd(m: Entries, k: Key, e: Entry)
    requires k !in m
    ensures TotalCost(m[k := e]) == Cost(k, e.value) + TotalCost(m)
  {
    TotalCostRemove(m[k := e], k);
    assert m[k := e] - {k} == m;
  }

  /** Re-ranking an entry changes no cost. */
  lemma RetouchCost(m: Entries, k: Key, tick: Tick)
    requires k in m
    ensures TotalCost(m[k := m[k].(touched := tick)]) == TotalCost(m)
    ensures |m[k := m[k].(touched := tick)]| == |m|
  {
    var r := m[k := m[k].(touched := tick)];
    TotalCostRemove(m, k);
    TotalCostRemove(r, k);
    assert r - {k} == m - {k};
    assert r.Keys == m.Keys;
    assert |r| == |r.Keys| && |m| == |m.Keys|;
  }

  lemma FewerKeys(m: Entries, k: Key)
    requires k in m
    ensures |m - {k}| == |m| - 1
  {
    assert |m - {k}| == |(m - {k}).Keys| && |m| == |m.Keys|;
    assert (m - {k}).Keys == m.Keys - {k};
  }

  ghost predicate SubMap(a: Entries, b: Entries) {
    forall k :: k in a ==> k in b && a[k] == b[k]
  }

  lemma {:induction false} SubMapCost(a: Entries, b: Entries)
    requires SubMap(a, b)
    ensures TotalCost(a) <= TotalCost(b) && |a| <= |b|
    decreases |a|
  {
    if a != map[] {
      var k := Pick(a);
      SubMapCost(a - {k}, b - {k});
      TotalCostRemove(a, k);
      TotalCostRemove(b, k);
    }
  }

  // ------------------------------------------------------------ eviction

  ghost predicate Within(m: Entries, lim: Limits) {
    |m| <= lim.maxEntries && TotalCost(m) <= lim.maxBytes
  }

  lemma WithinSubMap(a: Entries, b: Entries, lim: Limits)
    requires SubMap(a, b) && Within(b, lim)
    ensures Within(a, lim)
  {
    SubMapCost(a, b);
  }

  /** The order in which entries are given up: the dead by deadline (then by
      write), and after all of them the live by last use. */
  predicate Precedes(a: Entry, b: Entry, now: Instant) {
    if !IsLive(a, now) then
      || IsLive(b, now)
      || a.expiresAt.value < b.expiresAt.value
      || (a.expiresAt.value == b.expiresAt.value && a.inserted < b.inserted)
    else
      IsLive(b, now) && a.touched < b.touched
  }

  /** What the two indexes need to tell entries apart. */
  ghost predicate Distinct(m: Entries) {
    forall j, k :: j in m && k in m && j != k ==>
      && m[j].touched != m[k].touched
      && (m[j].expiresAt.Some? && m[j].expiresAt == m[k].expiresAt ==> m[j].inserted != m[k].inserted)
  }

  /** The entries that are not given up before `k`. */
  ghost function NotBefore(m: Entries, now: Instant, k: Key): Entries
    requires k in m
  {
    map j | j in m && !Precedes(m[j], m[k], now) :: m[j]
  }

  /** What eviction leaves: an entry stays exactly when it, and everything that
      would be given up after it, fits inside both bounds. */
  ghost function Kept(m: Entries, now: Instant, lim: Limits): Entries {
    map k | k in m && Within(NotBefore(m, now, k), lim) :: m[k]
  }

  lemma KeptWhenWithin(m: Entries, now: Instant, lim: Limits)
    requires Within(m, lim)
    ensures Kept(m, now, lim) == m
  {
    forall k | k in m ensures Within(NotBefore(m, now, k), lim) {
      WithinSubMap(NotBefore(m, now, k), m, lim);
    }
  }

  ghost predicate IsFirst(m: Entries, now: Instant, f: Key) {
    f in m && forall j :: j in m && j != f ==> Precedes(m[f], m[j], now)
  }

  /** One step of eviction: over a bound, the first in the order goes, and what
      is finally kept does not change. */
  lemma KeptStep(m: Entries, now: Instant, lim: Limits, f: Key)
    requires !Within(m, lim) && IsFirst(m, now, f)
    ensures Kept(m, now, lim) == Kept(m - {f}, now, lim)
    ensures f !in Kept(m, now, lim)
  {
    FirstGoes(m, now, lim, f);
    var before, after := Kept(m, now, lim), Kept(m - {f}, now, lim);
    forall k | k in m && k != f ensures k in before <==> k in after {
      KeptAgree(m, now, lim, f, k);
    }
    SameRestriction(m, before, after, f);
  }

  lemma FirstGoes(m: Entries, now: Instant, lim: Limits, f: Key)
    requires !Within(m, lim) && IsFirst(m, now, f)
    ensures f !in Kept(m, now, lim)
  {
    FirstHasNothingBefore(m, now, f);
  }

  lemma SameRestriction(m: Entries, a: Entries, b: Entries, f: Key)
    requires SubMap(a, m) && SubMap(b, m) && f !in a && f !in b
    requires forall k :: k in m && k != f ==> (k in a <==> k in b)
    ensures a == b
  {
    assert forall k :: k in a <==> k in b;
  }

  lemma KeptAgree(m: Entries, now: Instant, lim: Limits, f: Key, k: Key)
    requires IsFirst(m, now, f) && k in m && k != f
    ensures k in Kept(m, now, lim) <==> k in Kept(m - {f}, now, lim)
  {
    DropFirst(m, now, f, k);
  }

  lemma FirstHasNothingBefore(m: Entries, now: Instant, f: Key)
    requires IsFirst(m, now, f)
    ensures NotBefore(m, now, f) == m
  {
    forall j | j in m ensures !Precedes(m[j], m[f], now) {
      if j != f {
        assert Precedes(m[f], m[j], now);
      }
    }
  }

  lemma DropFirst(m: Entries, now: Instant, f: Key, k: Key)
    requires IsFirst(m, now, f) && k in m && k != f
    ensures NotBefore(m, now, k) == NotBefore(m - {f}, now, k)
  {
    assert Precedes(m[f], m[k], now);
    var a, b := NotBefore(m, now, k), NotBefore(m - {f}, now, k);
    assert forall j :: j in a <==> j in b;
  }

  lemma {:induction false} FirstExists(m: Entries, now: Instant) returns (f: Key)
    requires m != map[] && Distinct(m)
    ensures IsFirst(m, now, f)
    decreases |m|
  {
    var k := Pick(m);
    if m - {k} == map[] {
      f := k;
      assert forall j :: j in m && j != k ==> j in m - {k};
    } else {
      var g := FirstExists(m - {k}, now);
      f := if Precedes(m[k], m[g], now) then k else g;
      assert forall j :: j in m && j != k ==> j in m - {k};
    }
  }

  /** Eviction ends inside both bounds, whatever it started from. */
  lemma KeptWithin(m: Entries, now: Instant, lim: Limits)
    requires Distinct(m)
    ensures Within(Kept(m, now, lim), lim)
  {
    var kept := Kept(m, now, lim);
    if kept != map[] {
      var f := FirstExists(kept, now);
      KeptAfterFirst(m, kept, now, f);
      WithinSubMap(kept, NotBefore(m, now, f), lim);
    }
  }

  lemma KeptAfterFirst(m: Entries, kept: Entries, now: Instant, f: Key)
    requires SubMap(kept, m) && IsFirst(kept, now, f)
    ensures SubMap(kept, NotBefore(m, now, f))
  {
    forall k | k in kept ensures !Precedes(m[k], m[f], now) {
      assert k != f ==> Precedes(kept[f], kept[k], now);
    }
  }

  /** Victims go in the stated order: nothing kept precedes anything given up,
      so no live entry goes while a dead one stays, and no live entry goes
      before one used longer ago. */
  lemma VictimsComeFirst(m: Entries, now: Instant, lim: Limits, victim: Key, survivor: Key)
    requires Distinct(m)
    requires victim in m && victim !in Kept(m, now, lim) && survivor in Kept(m, now, lim)
    ensures Precedes(m[victim], m[survivor], now)
    ensures
      var gone, stays := m[victim], m[survivor];
      if gone.expiresAt.None? || now < gone.expiresAt.value then
        (stays.expiresAt.None? || now < stays.expiresAt.value) && gone.touched < stays.touched
      else
        || stays.expiresAt.None?
        || now < stays.expiresAt.value
        || gone.expiresAt.value < stays.expiresAt.value
        || (gone.expiresAt.value == stays.expiresAt.value && gone.inserted < stays.inserted)
  {
    if !Precedes(m[victim], m[survivor], now) {
      assert SubMap(NotBefore(m, now, victim), NotBefore(m, now, survivor));
      WithinSubMap(NotBefore(m, now, victim), NotBefore(m, now, survivor), lim);
    }
  }

  /** No more is given up than must be: putting back the last victim would
      exceed a bound again. */
  lemma NoSpareVictim(m: Entries, now: Instant, lim: Limits, victim: Key)
    requires Distinct(m)
    requires victim in m && victim !in Kept(m, now, lim)
    requires forall j :: j in m && j !in Kept(m, now, lim) && j != victim ==> Precedes(m[j], m[victim], now)
    ensures !Within(Kept(m, now, lim)[victim := m[victim]], lim)
  {
    forall j | j in m && Precedes(m[j], m[victim], now) ensures j !in Kept(m, now, lim) {
      if j in Kept(m, now, lim) {
        VictimsComeFirst(m, now, lim, victim, j);
      }
    }
    var kept, back := Kept(m, now, lim), NotBefore(m, now, victim);
    var all := kept[victim := m[victim]];
    forall j ensures j in all <==> j in back {
      if j in m && j != victim && j !in kept {
        assert Precedes(m[j], m[victim], now);
      }
    }
    assert all.Keys == back.Keys;
    SubMapCost(back, all);
  }

  /** Exactly when a live entry survives an eviction. */
  lemma LiveEntrySurvives(m: Entries, now: Instant, lim: Limits, k: Key)
    requires k in m && IsLive(m[k], now)
    ensures k in Kept(m, now, lim) <==>
      Within(map j | j in m && IsLive(m[j], now) && m[j].touched >= m[k].touched :: m[j], lim)
  {
    assert NotBefore(m, now, k) ==
      map j | j in m && IsLive(m[j], now) && m[j].touched >= m[k].touched :: m[j];
  }

  /** The deadline, then the write, come no sooner than these. */
  predicate DiesNoSooner(e: Entry, at: Instant, inserted: Tick) {
    e.expiresAt.Some? && (e.expiresAt.value > at || (e.expiresAt.value == at && e.inserted >= inserted))
  }

  /** Exactly when a dead entry survives an eviction: nothing live goes before it. */
  lemma DeadEntrySurvives(m: Entries, now: Instant, lim: Limits, k: Key)
    requires k in m && !IsLive(m[k], now)
    ensures k in Kept(m, now, lim) <==>
      Within(map j | j in m && (IsLive(m[j], now) || DiesNoSooner(m[j], m[k].expiresAt.value, m[k].inserted)) :: m[j], lim)
  {
    assert NotBefore(m, now, k) ==
      map j | j in m && (IsLive(m[j], now) || DiesNoSooner(m[j], m[k].expiresAt.value, m[k].inserted)) :: m[j];
  }

  // ---------------------------------------------------------- operations

  /** The cache without its indexes. */
  datatype View = View(entries: Entries, hits: nat, misses: nat, evictions: nat)

  const EMPTY_VIEW := View(map[], 0, 0, 0)

  /** The live entries of `m` that are not in `kept`. */
  ghost function LiveVictims(m: Entries, kept: Entries, now: Instant): set<Key> {
    set k | k in m && k !in kept && IsLive(m[k], now)
  }

  ghost function Remove(v: View, key: Key): View {
    v.(entries := v.entries - {key})
  }

  /** A lookup: a live entry is a hit and becomes the last used; a dead one is
      dropped on the way past. */
  ghost function Lookup(v: View, key: Key, now: Instant, tick: Tick): (r: (View, Option<Bytes>)) {
    if key in v.entries && IsLive(v.entries[key], now) then
      var e := v.entries[key];
      (v.(entries := v.entries[key := e.(touched := tick)], hits := v.hits + 1), Some(e.value))
    else
      (Remove(v, key).(misses := v.misses + 1), None)
  }

  /** A lookup in plain terms: a value with time left is answered, counted as a hit and
      ranked last used; anything else is counted as a miss and is not stored afterwards;
      no other entry is touched, and nothing is evicted. */
  lemma LookupMeans(v: View, key: Key, now: Instant, tick: Tick)
    ensures var (after, answer) := Lookup(v, key, now, tick);
      && after.entries - {key} == v.entries - {key} && after.evictions == v.evictions
      && if key in v.entries && (v.entries[key].expiresAt.None? || now < v.entries[key].expiresAt.value) then
           && answer == Some(v.entries[key].value) && after.hits == v.hits + 1 && after.misses == v.misses
           && key in after.entries && after.entries[key].touched == tick
           && after.entries[key].(touched := v.entries[key].touched) == v.entries[key]
         else
           answer == None && after.hits == v.hits && after.misses == v.misses + 1 && key !in after.entries
  {
    var (after, answer) := Lookup(v, key, now, tick);
    assert after.entries - {key} == v.entries - {key};
  }

  ghost function Written(m: Entries, key: Key, value: Bytes, expiresAt: Option<Instant>, tick: Tick): Entries {
    m[key := Entry(value, expiresAt, tick, tick)]
  }

  ghost function Evicted(v: View, now: Instant, lim: Limits): View {
    v.(entries := Kept(v.entries, now, lim),
       evictions := v.evictions +
            |LiveVictims(v.entries, Kept(v.entries, now, lim), now)|)
  }

  /** Eviction changes no entry, and counts the victims that had time left. */
  lemma EvictedIs(v: View, now: Instant, lim: Limits)
    ensures
      var after := Evicted(v, now, lim);
      && (forall k :: k in after.entries ==> k in v.entries && after.entries[k] == v.entries[k])
      && after.evictions == v.evictions + |set k | k in v.entries && k !in after.entries
           && (v.entries[k].expiresAt.None? || now < v.entries[k].expiresAt.value)|
  {
    var after := Evicted(v, now, lim);
    assert LiveVictims(v.entries, after.entries, now) == set k | k in v.entries && k !in after.entries
      && (v.entries[k].expiresAt.None? || now < v.entries[k].expiresAt.value);
  }

  /** Giving up `f`; only a live victim counts as an eviction. */
  ghost function GivenUp(v: View, f: Key, now: Instant): View
    requires f in v.entries
  {
    Remove(v, f).(evictions := v.evictions + if IsLive(v.entries[f], now) then 1 else 0)
  }

  /** One turn of the eviction loop, counters included. */
  lemma EvictedStep(v: View, now: Instant, lim: Limits, f: Key)
    requires !Within(v.entries, lim) && IsFirst(v.entries, now, f)
    ensures Evicted(GivenUp(v, f, now), now, lim) == Evicted(v, now, lim)
  {
    KeptStep(v.entries, now, lim, f);
    OneVictimFewer(v.entries, Kept(v.entries, now, lim), now, f);
  }

  lemma OneVictimFewer(m: Entries, kept: Entries, now: Instant, f: Key)
    requires f in m && f !in kept
    ensures |LiveVictims(m, kept, now)| ==
      |LiveVictims(m - {f}, kept, now)| + if IsLive(m[f], now) then 1 else 0
  {
    var all, rest := LiveVictims(m, kept, now), LiveVictims(m - {f}, kept, now);
    if IsLive(m[f], now) {
      assert all == rest + {f};
    } else {
      assert all == rest;
    }
  }

  ghost function Store(v: View, key: Key, value: Bytes, expiresAt: Option<Instant>, tick: Tick,
                       now: Instant, lim: Limits): View
  {
    Evicted(v.(entries := Written(v.entries, key, value, expiresAt, tick)), now, lim)
  }

  /** What a write leaves under its key, if anything, is its own entry. */
  lemma StoredIsWritten(v: View, key: Key, value: Bytes, expiresAt: Option<Instant>, tick: Tick,
                        now: Instant, lim: Limits)
    ensures
      var after := Store(v, key, value, expiresAt, tick, now, lim).entries;
      key in after ==> after[key] == Entry(value, expiresAt, tick, tick)
  {
  }

  ghost function Clear(v: View): View { v.(entries := map[]) }

  predicate Acceptable(key: Key, value: Bytes, lim: Limits) {
    |key| <= MAX_KEY_BYTES && Cost(key, value) <= lim.maxBytes
  }
}
