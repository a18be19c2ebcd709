/**
 The cache under concurrency. An operation first takes a tick from an atomic
 counter and later runs its body under the lock, so bodies may run in another
 order than their ticks. A run is any interleaving of those steps.
 */
module CacheMachine {
  import opened Basics
  import opened CacheSpec

  /** `pending` holds the ticks taken by operations whose body has not run yet. */
  datatype Sys = Sys(view: View, clock: Tick, pending: set<Tick>)

  datatype Step =
    | TakeTick
    | GetBody(key: Key, now: Instant, tick: Tick)
    | SetBody(key: Key, value: Bytes, expiresAt: Option<Instant>, tick: Tick, now: Instant)
    | DeleteBody(key: Key)
    | ClearBody

  const START := Sys(EMPTY_VIEW, 0, {})

  ghost predicate Enabled(s: Sys, step: Step, lim: Limits) {
    match step
    case GetBody(_, _, tick) => tick in s.pending
    case SetBody(key, value, _, tick, _) => tick in s.pending && Acceptable(key, value, lim)
    case _ => true
  }

  ghost function Apply(s: Sys, step: Step, lim: Limits): Sys {
    match step
    case TakeTick => s.(clock := s.clock + 1, pending := s.pending + {s.clock})
    case GetBody(key, now, tick) =>
      s.(view := Lookup(s.view, key, now, tick).0, pending := s.pending - {tick})
    case SetBody(key, value, expiresAt, tick, now) =>
      s.(view := Store(s.view, key, value, expiresAt, tick, now, lim), pending := s.pending - {tick})
    case DeleteBody(key) => s.(view := Remove(s.view, key))
    case ClearBody => s.(view := Clear(s.view))
  }

  ghost predicate FreshTick(m: Entries, t: Tick) {
    forall k :: k in m ==> m[k].touched != t && m[k].inserted != t
  }

  ghost predicate TicksBelow(m: Entries, clock: Tick) {
    forall k :: k in m ==> m[k].touched < clock && m[k].inserted < clock
  }

  ghost predicate UniqueTicks(m: Entries) {
    forall j, k :: j in m && k in m && j != k ==> m[j].touched != m[k].touched && m[j].inserted != m[k].inserted
  }

  ghost predicate TicksInOrder(m: Entries, clock: Tick, pending: set<Tick>) {
    && UniqueTicks(m)
    && TicksBelow(m, clock)
    && forall t :: t in pending ==> t < clock && FreshTick(m, t)
  }

  /** What every interleaving keeps: stored ticks are unique and in the past, no
      tick in flight is stored, and both bounds hold. */
  ghost predicate Inv(s: Sys, lim: Limits) {
    TicksInOrder(s.view.entries, s.clock, s.pending) && Within(s.view.entries, lim)
  }

  lemma FewerEntriesInOrder(m: Entries, less: Entries, clock: Tick, pending: set<Tick>)
    requires TicksInOrder(m, clock, pending) && SubMap(less, m)
    ensures TicksInOrder(less, clock, pending)
  {
  }

  lemma RetouchInOrder(m: Entries, key: Key, clock: Tick, pending: set<Tick>, tick: Tick)
    requires TicksInOrder(m, clock, pending) && tick in pending && key in m
    ensures TicksInOrder(m[key := m[key].(touched := tick)], clock, pending - {tick})
  {
  }

  lemma WrittenInOrder(m: Entries, key: Key, value: Bytes, expiresAt: Option<Instant>, clock: Tick,
                       pending: set<Tick>, tick: Tick)
    requires TicksInOrder(m, clock, pending) && tick in pending
    ensures TicksInOrder(Written(m, key, value, expiresAt, tick), clock, pending - {tick})
    ensures Distinct(Written(m, key, value, expiresAt, tick))
  {
  }

  lemma RetouchWithin(m: Entries, k: Key, tick: Tick, lim: Limits)
    requires k in m && Within(m, lim)
    ensures Within(m[k := m[k].(touched := tick)], lim)
  {
    RetouchCost(m, k, tick);
  }

  lemma StoreKeepsInv(s: Sys, step: Step, lim: Limits)
    requires Inv(s, lim) && Enabled(s, step, lim) && step.SetBody?
    ensures Inv(Apply(s, step, lim), lim)
  {
    var w := Written(s.view.entries, step.key, step.value, step.expiresAt, step.tick);
    WrittenInOrder(s.view.entries, step.key, step.value, step.expiresAt, s.clock, s.pending, step.tick);
    var kept := Kept(w, step.now, lim);
    FewerEntriesInOrder(w, kept, s.clock, s.pending - {step.tick});
    assert Within(kept, lim) by { KeptWithin(w, step.now, lim); }
    assert Apply(s, step, lim).view.entries == kept;
  }

  lemma LookupKeepsInv(s: Sys, step: Step, lim: Limits)
    requires Inv(s, lim) && Enabled(s, step, lim) && step.GetBody?
    ensures Inv(Apply(s, step, lim), lim)
  {
    var m := s.view.entries;
    if step.key in m && IsLive(m[step.key], step.now) {
      RetouchInOrder(m, step.key, s.clock, s.pending, step.tick);
      RetouchWithin(m, step.key, step.tick, lim);
    } else {
      RemoveKeepsInv(s, step.key, s.pending - {step.tick}, lim);
    }
  }

  lemma RemoveKeepsInv(s: Sys, key: Key, pending: set<Tick>, lim: Limits)
    requires Inv(s, lim) && pending <= s.pending
    ensures TicksInOrder(s.view.entries - {key}, s.clock, pending) && Within(s.view.entries - {key}, lim)
  {
    FewerEntriesInOrder(s.view.entries, s.view.entries - {key}, s.clock, s.pending);
    WithinSubMap(s.view.entries - {key}, s.view.entries, lim);
  }

  lemma StepKeepsInv(s: Sys, step: Step, lim: Limits)
    requires Inv(s, lim) && Enabled(s, step, lim)
    ensures Inv(Apply(s, step, lim), lim)
  {
    match step
    case TakeTick =>
    case SetBody(_, _, _, _, _) => StoreKeepsInv(s, step, lim);
    case GetBody(_, _, _) => LookupKeepsInv(s, step, lim);
    case DeleteBody(key) => RemoveKeepsInv(s, key, s.pending, lim);
    case ClearBody => WithinSubMap(map[], s.view.entries, lim);
  }

  // ---------------------------------------------------------------- runs

  ghost function RunFrom(s: Sys, steps: seq<Step>, lim: Limits): Sys {
    if steps == [] then s else Apply(RunFrom(s, steps[..|steps| - 1], lim), steps[|steps| - 1], lim)
  }

  ghost predicate Possible(s: Sys, steps: seq<Step>, lim: Limits) {
    steps == [] ||
    (Possible(s, steps[..|steps| - 1], lim)
     && Enabled(RunFrom(s, steps[..|steps| - 1], lim), steps[|steps| - 1], lim))
  }

  lemma {:induction false} PossiblePrefix(s: Sys, steps: seq<Step>, n: nat, lim: Limits)
    requires Possible(s, steps, lim) && n <= |steps|
    ensures Possible(s, steps[..n], lim)
    decreases |steps|
  {
    if n == |steps| {
      assert steps[..n] == steps;
    } else {
      PossiblePrefix(s, steps[..|steps| - 1], n, lim);
      assert steps[..|steps| - 1][..n] == steps[..n];
    }
  }

  /** Every interleaving, from an empty cache, stays inside the invariant. */
  lemma {:induction false} RunsKeepInv(steps: seq<Step>, lim: Limits)
    requires Possible(START, steps, lim)
    ensures Inv(RunFrom(START, steps, lim), lim)
  {
    if steps != [] {
      RunsKeepInv(steps[..|steps| - 1], lim);
      StepKeepsInv(RunFrom(START, steps[..|steps| - 1], lim), steps[|steps| - 1], lim);
    }
  }

  datatype Write = Write(value: Bytes, expiresAt: Option<Instant>)

  /** The latest write of `key` not deleted or cleared since. */
  function LastWrite(steps: seq<Step>, key: Key): Option<Write> {
    if steps == [] then None
    else
      match steps[|steps| - 1]
      case SetBody(k, value, expiresAt, _, _) =>
        if k == key then Some(Write(value, expiresAt)) else LastWrite(steps[..|steps| - 1], key)
      case DeleteBody(k) => if k == key then None else LastWrite(steps[..|steps| - 1], key)
      case ClearBody => None
      case _ => LastWrite(steps[..|steps| - 1], key)
  }

  function Gets(steps: seq<Step>): nat {
    if steps == [] then 0 else Gets(steps[..|steps| - 1]) + if steps[|steps| - 1].GetBody? then 1 else 0
  }

  /** After any interleaving, each entry holds the latest write of its key, and
      every lookup so far was counted once, as a hit or as a miss. */
  lemma {:induction false} EntriesAreLatestWrites(steps: seq<Step>, lim: Limits)
    ensures var v := RunFrom(START, steps, lim).view;
      && (forall k :: k in v.entries ==>
           LastWrite(steps, k) == Some(Write(v.entries[k].value, v.entries[k].expiresAt)))
      && v.hits + v.misses == Gets(steps)
  {
    if steps != [] {
      EntriesAreLatestWrites(steps[..|steps| - 1], lim);
    }
  }

  /** A hit is the bytes of the latest write of that key, and it is not expired. */
  lemma HitsAreLatestWrites(steps: seq<Step>, lim: Limits, key: Key, now: Instant, tick: Tick)
    ensures var answer := Lookup(RunFrom(START, steps, lim).view, key, now, tick).1;
      answer.Some? ==>
        exists at :: LastWrite(steps, key) == Some(Write(answer.value, at)) && (at.None? || at.value > now)
  {
    EntriesAreLatestWrites(steps, lim);
    var v := RunFrom(START, steps, lim).view;
    if key in v.entries && IsLive(v.entries[key], now) {
      assert LastWrite(steps, key) == Some(Write(v.entries[key].value, v.entries[key].expiresAt));
    }
  }

  // ------------------------------------------- the write and its own eviction

  /** Exactly when a write is still there after the eviction it triggers: a live one when
      it fits with the live entries used since its tick; one that expired before it took the
      lock when it fits with all live entries and the dead ones that died no sooner. */
  lemma WriteSurvivesIff(s: Sys, step: Step, lim: Limits)
    requires step.SetBody?
    ensures var m := Written(s.view.entries, step.key, step.value, step.expiresAt, step.tick);
      step.key in Apply(s, step, lim).view.entries <==>
        if step.expiresAt.None? || step.expiresAt.value > step.now then
          Within(map j | j in m && IsLive(m[j], step.now) && m[j].touched >= step.tick :: m[j], lim)
        else
          Within(map j | j in m && (IsLive(m[j], step.now) || DiesNoSooner(m[j], step.expiresAt.value, step.tick)) :: m[j],
                 lim)
  {
    var m := Written(s.view.entries, step.key, step.value, step.expiresAt, step.tick);
    if IsLive(m[step.key], step.now) {
      LiveEntrySurvives(m, step.now, lim, step.key);
    } else {
      DeadEntrySurvives(m, step.now, lim, step.key);
    }
  }

  /** When bodies run in tick order, a write is never its own victim. */
  lemma NewestWriteSurvives(s: Sys, step: Step, lim: Limits)
    requires Inv(s, lim) && Enabled(s, step, lim) && step.SetBody?
    requires step.expiresAt.None? || step.expiresAt.value > step.now
    requires forall k :: k in s.view.entries ==> s.view.entries[k].touched < step.tick
    requires lim.maxEntries >= 1
    ensures step.key in Apply(s, step, lim).view.entries
    ensures Apply(s, step, lim).view.entries[step.key].value == step.value
  {
    WriteSurvivesIff(s, step, lim);
    var m := Written(s.view.entries, step.key, step.value, step.expiresAt, step.tick);
    var newer := map j | j in m && IsLive(m[j], step.now) && m[j].touched >= step.tick :: m[j];
    OneEntry(step.key, m[step.key], newer);
  }

  /** What a write on its own leaves under its key: its entry, unless it was dead
      on arrival or there is room for none. */
  lemma LoneWriteLeaves(s: Sys, key: Key, value: Bytes, expiresAt: Option<Instant>, now: Instant, lim: Limits)
    requires Inv(s, lim) && Acceptable(key, value, lim)
    ensures
      var after := Apply(Apply(s, TakeTick, lim), SetBody(key, value, expiresAt, s.clock, now), lim).view.entries;
      && (key in after ==> after[key] == Entry(value, expiresAt, s.clock, s.clock))
      && (lim.maxEntries >= 1 && (expiresAt.None? || expiresAt.value > now) ==> key in after)
  {
    var ticked := Apply(s, TakeTick, lim);
    StepKeepsInv(s, TakeTick, lim);
    StoredIsWritten(ticked.view, key, value, expiresAt, s.clock, now, lim);
    if lim.maxEntries >= 1 && (expiresAt.None? || expiresAt.value > now) {
      NewestWriteSurvives(ticked, SetBody(key, value, expiresAt, s.clock, now), lim);
    }
  }

  lemma OneEntry(key: Key, e: Entry, m: Entries)
    requires m.Keys == {key} && m[key] == e
    ensures |m| == 1 && TotalCost(m) == Cost(key, e.value)
  {
    TotalCostRemove(m, key);
    assert m - {key} == map[];
    assert |m| == |m.Keys|;
  }

  /** With bodies out of tick order it can be: two writers, room for one entry,
      and the one that took its tick first runs last. */
  lemma LateWriteCanEvictItself(a: Key, va: Bytes, b: Key, vb: Bytes, maxBytes: nat)
    requires a != b && Acceptable(a, va, Limits(1, maxBytes, 0)) && Acceptable(b, vb, Limits(1, maxBytes, 0))
    ensures var lim := Limits(1, maxBytes, 0);
      var late := SetBody(a, va, None, 0, 0);
      var steps := [TakeTick, TakeTick, SetBody(b, vb, None, 1, 0)];
      && Possible(START, steps + [late], lim)
      && a !in RunFrom(START, steps + [late], lim).view.entries
  {
    var lim := Limits(1, maxBytes, 0);
    var s1 := Apply(START, TakeTick, lim);
    var s2 := Apply(s1, TakeTick, lim);
    var early, late := SetBody(b, vb, None, 1, 0), SetBody(a, va, None, 0, 0);
    var s3 := Apply(s2, early, lim);
    var first := Written(map[], b, vb, None, 1);
    OneEntry(b, first[b], first);
    KeptWhenWithin(first, 0, lim);
    assert s3.view.entries == first;
    WriteSurvivesIff(s3, late, lim);
    TwoEntriesExceed(a, va, b, vb, first, lim);
    UnrollRun(s1, s2, s3, early, late, lim);
  }

  lemma TwoEntriesExceed(a: Key, va: Bytes, b: Key, vb: Bytes, first: Entries, lim: Limits)
    requires a != b && first == Written(map[], b, vb, None, 1) && lim.maxEntries == 1
    ensures var m := Written(first, a, va, None, 0);
      !Within(map j | j in m && IsLive(m[j], 0) && m[j].touched >= 0 :: m[j], lim)
  {
    var m := Written(first, a, va, None, 0);
    var newer := map j | j in m && IsLive(m[j], 0) && m[j].touched >= 0 :: m[j];
    assert newer.Keys == {a, b};
    assert |newer| == |newer.Keys|;
  }

  lemma UnrollRun(s1: Sys, s2: Sys, s3: Sys, early: Step, late: Step, lim: Limits)
    requires s1 == Apply(START, TakeTick, lim) && s2 == Apply(s1, TakeTick, lim) && s3 == Apply(s2, early, lim)
    requires Enabled(s2, early, lim) && Enabled(s3, late, lim)
    ensures Possible(START, [TakeTick, TakeTick, early] + [late], lim)
    ensures RunFrom(START, [TakeTick, TakeTick, early] + [late], lim) == Apply(s3, late, lim)
  {
    var p1, p2, p3 := [TakeTick], [TakeTick, TakeTick], [TakeTick, TakeTick, early];
    assert p1[..0] == [] && p2[..1] == p1 && p3[..2] == p2 && (p3 + [late])[..3] == p3;
    assert RunFrom(START, p1, lim) == s1 && Possible(START, p1, lim);
    assert RunFrom(START, p2, lim) == s2 && Possible(START, p2, lim);
    assert RunFrom(START, p3, lim) == s3 && Possible(START, p3, lim);
  }
}
