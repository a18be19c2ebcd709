/**
 The cache as one list of items, least recently used first, with no ticks for
 recency and no index: a use moves an item to the end, and eviction scans. Run
 one operation at a time, the indexed cache cannot be told apart from it.
 */
module CacheRecency {
  import opened Basics
  import opened CacheSpec
  import opened CacheIndexes
  import opened CacheMachine

  /** `born` numbers the writes: it breaks ties between equal deadlines. */
  datatype Item = Item(key: Key, value: Bytes, expiresAt: Option<Instant>, born: Tick)

  datatype Recency = Recency(items: seq<Item>, clock: Tick, hits: nat, misses: nat, evictions: nat)

  datatype Call =
    | GetCall(key: Key, now: Instant)
    | SetCall(key: Key, value: Bytes, expiresAt: Option<Instant>, now: Instant)
    | DeleteCall(key: Key)
    | ClearCall

  // ------------------------------------------------------ the list machine

  function Position(items: seq<Item>, key: Key): (at: nat)
    ensures at <= |items|
    ensures at < |items| ==> items[at].key == key
    ensures at == |items| ==> forall i :: 0 <= i < |items| ==> items[i].key != key
  {
    if items == [] || items[0].key == key then 0 else 1 + Position(items[1..], key)
  }

  function Without(items: seq<Item>, at: nat): seq<Item> {
    if at < |items| then items[..at] + items[at + 1..] else items
  }

  function ListCost(items: seq<Item>): nat {
    if items == [] then 0 else Cost(items[0].key, items[0].value) + ListCost(items[1..])
  }

  predicate Dead(it: Item, now: Instant) {
    it.expiresAt.Some? && it.expiresAt.value <= now
  }

  predicate DiesFirst(a: Item, b: Item)
    requires a.expiresAt.Some? && b.expiresAt.Some?
  {
    SlotLeq((a.expiresAt.value, a.born), (b.expiresAt.value, b.born))
  }

  /** Scans for the dead item with the earliest deadline. */
  function Soonest(items: seq<Item>, now: Instant): (at: nat)
    ensures at <= |items|
    ensures at < |items| ==> Dead(items[at], now)
    ensures at < |items| ==> forall i :: 0 <= i < |items| && Dead(items[i], now) ==> DiesFirst(items[at], items[i])
    ensures at == |items| ==> forall i :: 0 <= i < |items| ==> !Dead(items[i], now)
  {
    if items == [] then 0
    else
      var rest := Soonest(items[1..], now);
      assert forall i :: 0 < i < |items| ==> items[i] == items[1..][i - 1];
      if Dead(items[0], now) && (rest == |items| - 1 || DiesFirst(items[0], items[rest + 1])) then 0
      else rest + 1
  }

  /** Gives up items until both bounds hold; also counts the live ones given up. */
  function Trim(items: seq<Item>, now: Instant, lim: Limits): (seq<Item>, nat)
    decreases |items|
  {
    if items == [] || (|items| <= lim.maxEntries && ListCost(items) <= lim.maxBytes) then (items, 0)
    else
      var dead := Soonest(items, now);
      if dead < |items| then Trim(Without(items, dead), now, lim)
      else
        var (rest, evicted) := Trim(items[1..], now, lim);
        (rest, evicted + 1)
  }

  /** A hit moves the item to the end; a dead item is dropped on the way past. */
  function ListGet(r: Recency, key: Key, now: Instant): (Recency, Option<Bytes>) {
    var at := Position(r.items, key);
    if at < |r.items| && !Dead(r.items[at], now) then
      (r.(items := Without(r.items, at) + [r.items[at]], clock := r.clock + 1, hits := r.hits + 1),
       Some(r.items[at].value))
    else
      (r.(items := Without(r.items, at), clock := r.clock + 1, misses := r.misses + 1), None)
  }

  /** The items with a new one for `key` at the end. */
  function ListWritten(r: Recency, key: Key, value: Bytes, expiresAt: Option<Instant>): seq<Item> {
    Without(r.items, Position(r.items, key)) + [Item(key, value, expiresAt, r.clock)]
  }

  function ListSet(r: Recency, key: Key, value: Bytes, expiresAt: Option<Instant>, now: Instant, lim: Limits): Recency {
    if !Acceptable(key, value, lim) then r
    else
      var (items, evicted) := Trim(ListWritten(r, key, value, expiresAt), now, lim);
      r.(items := items, clock := r.clock + 1, evictions := r.evictions + evicted)
  }

  function ListCall(r: Recency, call: Call, lim: Limits): (Recency, Option<Bytes>) {
    match call
    case GetCall(key, now) => ListGet(r, key, now)
    case SetCall(key, value, expiresAt, now) => (ListSet(r, key, value, expiresAt, now, lim), None)
    case DeleteCall(key) => (r.(items := Without(r.items, Position(r.items, key))), None)
    case ClearCall => (r.(items := []), None)
  }

  function ListRun(calls: seq<Call>, lim: Limits): (Recency, seq<Option<Bytes>>) {
    if calls == [] then (Recency([], 0, 0, 0, 0), [])
    else
      var (r, answers) := ListRun(calls[..|calls| - 1], lim);
      var (r', answer) := ListCall(r, calls[|calls| - 1], lim);
      (r', answers + [answer])
  }

  // ----------------------------------------------- the cache, sequentially

  ghost function CacheGet(s: Sys, key: Key, now: Instant, lim: Limits): Sys {
    Apply(Apply(s, TakeTick, lim), GetBody(key, now, s.clock), lim)
  }

  ghost function CacheSet(s: Sys, key: Key, value: Bytes, expiresAt: Option<Instant>, now: Instant, lim: Limits): Sys {
    if !Acceptable(key, value, lim) then s
    else Apply(Apply(s, TakeTick, lim), SetBody(key, value, expiresAt, s.clock, now), lim)
  }

  /** One operation from its tick to the end of its body, with nothing between. */
  ghost function CacheCall(s: Sys, call: Call, lim: Limits): (Sys, Option<Bytes>) {
    match call
    case GetCall(key, now) => (CacheGet(s, key, now, lim), Lookup(s.view, key, now, s.clock).1)
    case SetCall(key, value, expiresAt, now) => (CacheSet(s, key, value, expiresAt, now, lim), None)
    case DeleteCall(key) => (Apply(s, DeleteBody(key), lim), None)
    case ClearCall => (Apply(s, ClearBody, lim), None)
  }

  ghost function CacheRun(calls: seq<Call>, lim: Limits): (Sys, seq<Option<Bytes>>) {
    if calls == [] then (START, [])
    else
      var (s, answers) := CacheRun(calls[..|calls| - 1], lim);
      var (s', answer) := CacheCall(s, calls[|calls| - 1], lim);
      (s', answers + [answer])
  }

  // ---------------------------------------------------------- refinement

  ghost predicate Stored(it: Item, m: Entries) {
    && it.key in m
    && m[it.key].value == it.value && m[it.key].expiresAt == it.expiresAt && m[it.key].inserted == it.born
  }

  ghost predicate Listed(items: seq<Item>, k: Key) {
    exists i :: 0 <= i < |items| && items[i].key == k
  }

  /** The list shows the map: the same entries, in order of their last use. */
  ghost predicate Shows(items: seq<Item>, m: Entries) {
    && (forall i :: 0 <= i < |items| ==> Stored(items[i], m))
    && (forall i, j :: 0 <= i < j < |items| ==> m[items[i].key].touched < m[items[j].key].touched)
    && (forall k :: k in m ==> Listed(items, k))
  }

  lemma ShowsWithout(items: seq<Item>, m: Entries, at: nat)
    requires Shows(items, m) && at < |items|
    ensures Shows(Without(items, at), m - {items[at].key})
  {
    var less, k0 := Without(items, at), items[at].key;
    forall k | k in m - {k0} ensures Listed(less, k) {
      ListedWithout(items, at, k);
    }
    forall i | 0 <= i < |less| ensures Stored(less[i], m - {k0}) {
      var j := if i < at then i else i + 1;
      assert less[i] == items[j] && Stored(items[j], m) && Stored(items[at], m);
    }
  }

  lemma ListedWithout(items: seq<Item>, at: nat, k: Key)
    requires at < |items| && Listed(items, k) && k != items[at].key
    ensures Listed(Without(items, at), k)
  {
    var i :| 0 <= i < |items| && items[i].key == k;
    assert Without(items, at)[if i < at then i else i - 1].key == k;
  }

  lemma ShowsAppended(items: seq<Item>, m: Entries, it: Item, e: Entry)
    requires Shows(items, m) && it.key !in m
    requires it.value == e.value && it.expiresAt == e.expiresAt && it.born == e.inserted
    requires forall k :: k in m ==> m[k].touched < e.touched
    ensures Shows(items + [it], m[it.key := e])
  {
    var more := items + [it];
    forall k | k in m[it.key := e] ensures Listed(more, k) {
      if k == it.key {
        assert more[|items|].key == k;
      } else {
        var i :| 0 <= i < |items| && items[i].key == k;
        assert more[i].key == k;
      }
    }
  }

  lemma ShowsRest(items: seq<Item>, m: Entries)
    requires Shows(items, m) && items != []
    ensures Shows(items[1..], m - {items[0].key}) && Stored(items[0], m)
  {
    ShowsWithout(items, m, 0);
    assert Without(items, 0) == items[1..];
  }

  lemma {:induction false} ShowsCost(items: seq<Item>, m: Entries)
    requires Shows(items, m)
    ensures ListCost(items) == TotalCost(m) && |items| == |m|
    decreases |items|
  {
    if items == [] {
      NothingListed(m);
    } else {
      var k := items[0].key;
      ShowsRest(items, m);
      ShowsCost(items[1..], m - {k});
      FewerKeys(m, k);
      TotalCostRemove(m, k);
    }
  }

  lemma NothingListed(m: Entries)
    requires Shows([], m)
    ensures m == map[]
  {
    assert m != map[] ==> Listed([], Pick(m));
  }

  /** The scan finds the entry that is given up first. */
  lemma ScanFindsFirst(items: seq<Item>, m: Entries, now: Instant)
    requires Shows(items, m) && items != [] && UniqueTicks(m)
    ensures var at := if Soonest(items, now) < |items| then Soonest(items, now) else 0;
      IsFirst(m, now, items[at].key) && (IsLive(m[items[at].key], now) <==> Soonest(items, now) == |items|)
  {
    var dead := Soonest(items, now);
    var at := if dead < |items| then dead else 0;
    var f := items[at].key;
    assert Stored(items[at], m);
    forall k | k in m && k != f ensures Precedes(m[f], m[k], now) {
      var i :| 0 <= i < |items| && items[i].key == k;
      assert Stored(items[i], m);
      assert IsLive(m[k], now) <==> !Dead(items[i], now);
      if dead == |items| {
        assert i != 0;
      }
    }
  }

  lemma {:induction false} TrimShowsKept(items: seq<Item>, m: Entries, now: Instant, lim: Limits)
    requires Shows(items, m) && UniqueTicks(m)
    ensures Shows(Trim(items, now, lim).0, Kept(m, now, lim))
    ensures Trim(items, now, lim).1 == |LiveVictims(m, Kept(m, now, lim), now)|
    decreases |items|
  {
    ShowsCost(items, m);
    if items == [] || (|items| <= lim.maxEntries && ListCost(items) <= lim.maxBytes) {
      KeptWhenWithin(m, now, lim);
      assert LiveVictims(m, m, now) == {};
    } else {
      var dead := Soonest(items, now);
      var at := if dead < |items| then dead else 0;
      var f := items[at].key;
      ScanFindsFirst(items, m, now);
      KeptStep(m, now, lim, f);
      OneVictimFewer(m, Kept(m, now, lim), now, f);
      ShowsWithout(items, m, at);
      assert at == 0 ==> Without(items, at) == items[1..];
      TrimShowsKept(Without(items, at), m - {f}, now, lim);
    }
  }

  ghost predicate Simulates(r: Recency, s: Sys, lim: Limits) {
    && Inv(s, lim) && s.pending == {}
    && Shows(r.items, s.view.entries)
    && r.clock == s.clock
    && r.hits == s.view.hits && r.misses == s.view.misses && r.evictions == s.view.evictions
  }

  lemma ShowsDropped(items: seq<Item>, m: Entries, key: Key)
    requires Shows(items, m)
    ensures Shows(Without(items, Position(items, key)), m - {key})
    ensures Position(items, key) < |items| <==> key in m
  {
    var at := Position(items, key);
    if at < |items| {
      assert Stored(items[at], m);
      ShowsWithout(items, m, at);
    } else {
      assert key in m ==> Listed(items, key);
      assert m - {key} == m;
    }
  }

  lemma GetSimulates(r: Recency, s: Sys, key: Key, now: Instant, lim: Limits)
    requires Simulates(r, s, lim)
    ensures Simulates(ListGet(r, key, now).0, CacheGet(s, key, now, lim), lim)
    ensures ListGet(r, key, now).1 == Lookup(s.view, key, now, s.clock).1
  {
    var ticked := Apply(s, TakeTick, lim);
    GetShows(r, s.view, key, now);
    assert Inv(ticked, lim) by { StepKeepsInv(s, TakeTick, lim); }
    assert Inv(CacheGet(s, key, now, lim), lim) by {
      StepKeepsInv(ticked, GetBody(key, now, s.clock), lim);
    }
  }

  lemma GetShows(r: Recency, v: View, key: Key, now: Instant)
    requires Shows(r.items, v.entries) && TicksBelow(v.entries, r.clock)
    requires r.hits == v.hits && r.misses == v.misses
    ensures var (r', a), (v', b) := ListGet(r, key, now), Lookup(v, key, now, r.clock);
      a == b && Shows(r'.items, v'.entries) && r'.hits == v'.hits && r'.misses == v'.misses
  {
    var at := Position(r.items, key);
    ShowsDropped(r.items, v.entries, key);
    if at < |r.items| {
      assert Stored(r.items[at], v.entries);
      if !Dead(r.items[at], now) {
        ShowsMoved(r.items, v.entries, key, r.clock);
      }
    }
  }

  lemma ShowsMoved(items: seq<Item>, m: Entries, key: Key, tick: Tick)
    requires Shows(items, m) && key in m && Position(items, key) < |items| && TicksBelow(m, tick)
    ensures var at := Position(items, key);
      Shows(Without(items, at) + [items[at]], m[key := m[key].(touched := tick)])
  {
    var at := Position(items, key);
    ShowsDropped(items, m, key);
    assert Stored(items[at], m);
    var e := m[key].(touched := tick);
    ShowsAppended(Without(items, at), m - {key}, items[at], e);
    assert (m - {key})[key := e] == m[key := e];
  }

  lemma ShowsWritten(r: Recency, m: Entries, key: Key, value: Bytes, expiresAt: Option<Instant>)
    requires Shows(r.items, m) && TicksBelow(m, r.clock)
    ensures Shows(ListWritten(r, key, value, expiresAt), Written(m, key, value, expiresAt, r.clock))
  {
    var e := Entry(value, expiresAt, r.clock, r.clock);
    ShowsDropped(r.items, m, key);
    ShowsAppended(Without(r.items, Position(r.items, key)), m - {key}, Item(key, value, expiresAt, r.clock), e);
    assert (m - {key})[key := e] == Written(m, key, value, expiresAt, r.clock);
  }

  lemma SetSimulates(r: Recency, s: Sys, key: Key, value: Bytes, expiresAt: Option<Instant>, now: Instant, lim: Limits)
    requires Simulates(r, s, lim) && Acceptable(key, value, lim)
    ensures Simulates(ListSet(r, key, value, expiresAt, now, lim), CacheSet(s, key, value, expiresAt, now, lim), lim)
  {
    SetKeepsInv(s, key, value, expiresAt, now, lim);
    ShowsWritten(r, s.view.entries, key, value, expiresAt);
    TrimShowsKept(ListWritten(r, key, value, expiresAt), Written(s.view.entries, key, value, expiresAt, s.clock), now, lim);
  }

  lemma SetKeepsInv(s: Sys, key: Key, value: Bytes, expiresAt: Option<Instant>, now: Instant, lim: Limits)
    requires Inv(s, lim) && Acceptable(key, value, lim)
    ensures Inv(CacheSet(s, key, value, expiresAt, now, lim), lim)
    ensures UniqueTicks(Written(s.view.entries, key, value, expiresAt, s.clock))
  {
    var ticked := Apply(s, TakeTick, lim);
    assert Inv(ticked, lim) by { StepKeepsInv(s, TakeTick, lim); }
    assert UniqueTicks(Written(s.view.entries, key, value, expiresAt, s.clock)) by {
      WrittenInOrder(s.view.entries, key, value, expiresAt, ticked.clock, ticked.pending, s.clock);
    }
    StepKeepsInv(ticked, SetBody(key, value, expiresAt, s.clock, now), lim);
  }

  lemma CallSimulates(r: Recency, s: Sys, call: Call, lim: Limits)
    requires Simulates(r, s, lim)
    ensures Simulates(ListCall(r, call, lim).0, CacheCall(s, call, lim).0, lim)
    ensures ListCall(r, call, lim).1 == CacheCall(s, call, lim).1
  {
    match call
    case GetCall(key, now) =>
      GetSimulates(r, s, key, now, lim);
    case SetCall(key, value, expiresAt, now) =>
      if Acceptable(key, value, lim) {
        SetSimulates(r, s, key, value, expiresAt, now, lim);
      }
    case DeleteCall(key) =>
      StepKeepsInv(s, DeleteBody(key), lim);
      ShowsDropped(r.items, s.view.entries, key);
    case ClearCall =>
      StepKeepsInv(s, ClearBody, lim);
  }

  /** Over any sequence of calls, the indexed cache answers every lookup as the
      plain recency list does, and counts the same hits, misses and evictions. */
  lemma {:induction false} CacheRefinesRecencyList(calls: seq<Call>, lim: Limits)
    ensures CacheRun(calls, lim).1 == ListRun(calls, lim).1
    ensures Simulates(ListRun(calls, lim).0, CacheRun(calls, lim).0, lim)
  {
    if calls != [] {
      CacheRefinesRecencyList(calls[..|calls| - 1], lim);
      CallSimulates(ListRun(calls[..|calls| - 1], lim).0, CacheRun(calls[..|calls| - 1], lim).0,
                    calls[|calls| - 1], lim);
    }
  }
}
