/**
 The fixed-window limiter as functions of values, the limiter of one client
 alone, and what links them over whole runs. Times are in nanoseconds.
 */
module RateLimit {
  import opened Basics
  import opened ClientKeys

  const BUCKET_PURGE_THRESHOLD: nat := 10_000
  const BUCKET_PURGE_INTERVAL: nat := NANOS
  const MAX_BUCKETS: nat := 200_000

  type Time = int

  datatype Policy = Policy(max: nat, window: nat)

  datatype Bucket = Bucket(start: Time, count: nat)

  /** `None` admits; `Some` is the `Retry-After` of a refusal, in seconds. */
  type Verdict = Option<nat>

  /** Elapsed time, zero when `then_` is in the future. */
  function Since(now: Time, then_: Time): nat { if now < then_ then 0 else now - then_ }

  predicate Stale(b: Bucket, now: Time, p: Policy) { now < b.start || now - b.start >= p.window }

  /** One request of one client: a window that is over, or lies in the future, starts over. */
  function Hit(b: Option<Bucket>, now: Time, p: Policy): Bucket {
    if b.None? || Stale(b.value, now, p) then Bucket(now, 1) else Bucket(b.value.start, b.value.count + 1)
  }

  function RetryAfter(b: Bucket, now: Time, p: Policy): nat {
    var elapsed := Since(now, b.start);
    var remaining := if p.window < elapsed then 0 else p.window - elapsed;
    if remaining / NANOS > 1 then remaining / NANOS else 1
  }

  function Judge(b: Bucket, now: Time, p: Policy): Verdict {
    if b.count > p.max then Some(RetryAfter(b, now, p)) else None
  }

  // -------------------------------------------------------- one client alone

  /** The bucket of a client that made requests at `times` and met no other client. */
  function Solo(times: seq<Time>, p: Policy): Option<Bucket> {
    if times == [] then None
    else Some(Hit(Solo(times[..|times| - 1], p), times[|times| - 1], p))
  }

  function SoloVerdict(times: seq<Time>, p: Policy): Verdict
    requires times != []
  {
    Judge(Solo(times, p).value, times[|times| - 1], p)
  }

  ghost predicate Sorted(times: seq<Time>) {
    forall i, j :: 0 <= i < j < |times| ==> times[i] <= times[j]
  }

  /** How many of the requests made at or after `from` were admitted. */
  function AdmittedFrom(times: seq<Time>, from: Time, p: Policy): nat {
    if times == [] then 0
    else
      AdmittedFrom(times[..|times| - 1], from, p)
      + if times[|times| - 1] >= from && SoloVerdict(times, p).None? then 1 else 0
  }

  function AdmittedBetween(times: seq<Time>, from: Time, to: Time, p: Policy): nat {
    if times == [] then 0
    else
      AdmittedBetween(times[..|times| - 1], from, to, p)
      + if from <= times[|times| - 1] < to && SoloVerdict(times, p).None? then 1 else 0
  }

  lemma {:induction false} NoneBefore(times: seq<Time>, from: Time, p: Policy)
    requires forall i :: 0 <= i < |times| ==> times[i] < from
    ensures AdmittedFrom(times, from, p) == 0
  {
    if times != [] {
      NoneBefore(times[..|times| - 1], from, p);
    }
  }

  /** Within one window of the last request: at most one window's worth was admitted
      since the current window opened, and at most two windows' worth overall. */
  lemma {:induction false} TwoWindows(times: seq<Time>, from: Time, p: Policy)
    requires times != [] && Sorted(times) && times[|times| - 1] < from + p.window
    ensures var b := Solo(times, p).value; var admitted := AdmittedFrom(times, from, p);
      && b.start <= times[|times| - 1]
      && admitted <= p.max + Least(b.count, p.max)
      && (b.start < from ==> admitted <= Least(b.count, p.max))
  {
    var init, now := times[..|times| - 1], times[|times| - 1];
    if init != [] {
      TwoWindows(init, from, p);
      var before := Solo(init, p).value;
      if now < from {
        NoneBefore(times, from, p);
      } else if Stale(before, now, p) {
        assert before.start < from;
      }
    }
  }

  /** Everything admitted since the current window opened was admitted by it: at most `max`. */
  lemma {:induction false} OneWindow(times: seq<Time>, p: Policy)
    requires times != [] && Sorted(times) && p.window > 0
    ensures var b := Solo(times, p).value;
      && b.start <= times[|times| - 1] < b.start + p.window
      && AdmittedFrom(times, b.start, p) <= Least(b.count, p.max)
  {
    var init, now := times[..|times| - 1], times[|times| - 1];
    if init != [] {
      OneWindow(init, p);
      if Stale(Solo(init, p).value, now, p) {
        NoneBefore(init, now, p);
      }
    }
  }

  /** Any span of one window's length sees at most `2 * max` admitted requests. */
  lemma {:induction false} SlidingBound(times: seq<Time>, from: Time, p: Policy)
    requires Sorted(times)
    ensures AdmittedBetween(times, from, from + p.window, p) <= 2 * p.max
    decreases |times|
  {
    if times != [] {
      if times[|times| - 1] >= from + p.window {
        SlidingBound(times[..|times| - 1], from, p);
      } else {
        TwoWindows(times, from, p);
        AllBefore(times, from, from + p.window, p);
      }
    }
  }

  lemma {:induction false} AllBefore(times: seq<Time>, from: Time, to: Time, p: Policy)
    requires Sorted(times) && (times != [] ==> times[|times| - 1] < to)
    ensures AdmittedBetween(times, from, to, p) == AdmittedFrom(times, from, p)
    decreases |times|
  {
    if times != [] {
      AllBefore(times[..|times| - 1], from, to, p);
    }
  }

  // ------------------------------------------------------------ all clients

  type Tracked = map<Ip, Bucket>

  datatype Buckets = Buckets(tracked: Tracked, lastPurge: Time)

  datatype Request = Request(client: Ip, at: Time)

  predicate PurgeDue(s: Buckets, now: Time) {
    |s.tracked| > BUCKET_PURGE_THRESHOLD && Since(now, s.lastPurge) >= BUCKET_PURGE_INTERVAL
  }

  function Purged(s: Buckets, now: Time, p: Policy): Buckets {
    if PurgeDue(s, now) then
      Buckets(map k | k in s.tracked && Since(now, s.tracked[k].start) < p.window :: s.tracked[k], now)
    else s
  }

  function Lookup(tracked: Tracked, client: Ip): Option<Bucket> {
    if client in tracked then Some(tracked[client]) else None
  }

  /** Whether a request is admitted without being counted. */
  predicate Untracked(s: Buckets, r: Request, p: Policy) {
    |Purged(s, r.at, p).tracked| >= MAX_BUCKETS && r.client !in Purged(s, r.at, p).tracked
  }

  function Check(s: Buckets, r: Request, p: Policy): (Buckets, Verdict) {
    var purged := Purged(s, r.at, p);
    if Untracked(s, r, p) then (purged, None)
    else
      var b := Hit(Lookup(purged.tracked, r.client), r.at, p);
      (purged.(tracked := purged.tracked[r.client := b]), Judge(b, r.at, p))
  }

  /** Whatever the clients and the clock do, the cap on tracked clients holds. */
  lemma CheckKeepsCap(s: Buckets, r: Request, p: Policy)
    requires |s.tracked| <= MAX_BUCKETS
    ensures |Check(s, r, p).0.tracked| <= MAX_BUCKETS
  {
    var purged := Purged(s, r.at, p).tracked;
    assert |purged| <= |s.tracked| by {
      assert purged.Keys <= s.tracked.Keys;
      SubsetIsNoLarger(purged.Keys, s.tracked.Keys);
      assert |purged.Keys| == |purged| && |s.tracked.Keys| == |s.tracked|;
    }
    var after := Check(s, r, p).0.tracked;
    if !Untracked(s, r, p) {
      assert after.Keys == purged.Keys + {r.client};
      assert |after.Keys| == |after| && |purged.Keys| == |purged|;
      if r.client in purged {
        assert after.Keys == purged.Keys;
      }
    }
  }

  /** Below 200,000 tracked clients every request is counted. */
  lemma CountedBelowCap(s: Buckets, r: Request, p: Policy)
    requires |s.tracked| < 200_000
    ensures r.client in Check(s, r, p).0.tracked
  {
    var purged := Purged(s, r.at, p).tracked;
    assert purged.Keys <= s.tracked.Keys;
    SubsetIsNoLarger(purged.Keys, s.tracked.Keys);
    assert |purged.Keys| == |purged| && |s.tracked.Keys| == |s.tracked|;
  }

  lemma SubsetIsNoLarger<T>(a: set<T>, b: set<T>)
    requires a <= b
    ensures |a| <= |b|
  {
    assert |b| == |a| + |b - a| by { assert b == a + (b - a); }
  }

  function Run(trace: seq<Request>, created: Time, p: Policy): Buckets {
    if trace == [] then Buckets(map[], created)
    else Check(Run(trace[..|trace| - 1], created, p), trace[|trace| - 1], p).0
  }

  /** The answer to the last request of a trace. */
  function LastVerdict(trace: seq<Request>, created: Time, p: Policy): Verdict
    requires trace != []
  {
    Check(Run(trace[..|trace| - 1], created, p), trace[|trace| - 1], p).1
  }

  ghost predicate Ordered(trace: seq<Request>) {
    forall i, j :: 0 <= i < j < |trace| ==> trace[i].at <= trace[j].at
  }

  /** No request of the trace met the cap. */
  ghost predicate NeverFull(trace: seq<Request>, created: Time, p: Policy) {
    trace == [] ||
    (NeverFull(trace[..|trace| - 1], created, p)
     && !Untracked(Run(trace[..|trace| - 1], created, p), trace[|trace| - 1], p))
  }

  /** The times of one client's requests. */
  function TimesOf(trace: seq<Request>, client: Ip): seq<Time> {
    if trace == [] then []
    else
      TimesOf(trace[..|trace| - 1], client)
      + if trace[|trace| - 1].client == client then [trace[|trace| - 1].at] else []
  }

  /** What the limiter remembers of a client, against what the client alone would
      have: the same bucket, or none where the client's own window is over. */
  ghost predicate Remembers(kept: Option<Bucket>, alone: Option<Bucket>, now: Time, p: Policy) {
    kept == alone || (kept.None? && now - alone.value.start >= p.window)
  }

  /** A purge forgets only windows that are over. */
  lemma PurgeForgetsNothing(s: Buckets, client: Ip, alone: Option<Bucket>, before: Time, now: Time, p: Policy)
    requires before <= now && Remembers(Lookup(s.tracked, client), alone, before, p)
    requires alone.Some? ==> alone.value.start <= before
    ensures Remembers(Lookup(Purged(s, now, p).tracked, client), alone, now, p)
  {
  }

  lemma {:induction false} TimesOfClient(trace: seq<Request>, client: Ip)
    requires Ordered(trace)
    ensures var times := TimesOf(trace, client);
      Sorted(times) && (times != [] ==> trace != [] && times[|times| - 1] <= trace[|trace| - 1].at)
  {
    if trace != [] {
      TimesOfClient(trace[..|trace| - 1], client);
    }
  }

  lemma {:induction false} SoloStart(times: seq<Time>, p: Policy)
    requires Sorted(times) && times != []
    ensures Solo(times, p).value.start <= times[|times| - 1]
  {
    if |times| > 1 {
      SoloStart(times[..|times| - 1], p);
    }
  }

  lemma {:induction false} RunRemembers(trace: seq<Request>, created: Time, p: Policy, client: Ip)
    requires trace != [] && Ordered(trace) && NeverFull(trace, created, p)
    ensures Remembers(Lookup(Run(trace, created, p).tracked, client), Solo(TimesOf(trace, client), p),
                      trace[|trace| - 1].at, p)
    ensures trace[|trace| - 1].client == client ==>
      Lookup(Run(trace, created, p).tracked, client) == Solo(TimesOf(trace, client), p)
    decreases |trace|, 0
  {
    var init, r := trace[..|trace| - 1], trace[|trace| - 1];
    var alone := Solo(TimesOf(init, client), p);
    var before := Run(init, created, p);
    PurgedRemembers(init, r.at, created, p, client);
    CheckRemembers(before, r, client, alone, p);
    var times := TimesOf(trace, client);
    if r.client == client {
      assert times[..|times| - 1] == TimesOf(init, client);
    } else {
      assert times == TimesOf(init, client);
    }
  }

  /** The same once the next request has purged. */
  lemma {:induction false} PurgedRemembers(init: seq<Request>, now: Time, created: Time, p: Policy, client: Ip)
    requires Ordered(init) && NeverFull(init, created, p) && (init != [] ==> init[|init| - 1].at <= now)
    ensures Remembers(Lookup(Purged(Run(init, created, p), now, p).tracked, client), Solo(TimesOf(init, client), p), now, p)
    decreases |init|, 1
  {
    var alone := Solo(TimesOf(init, client), p);
    var before := Run(init, created, p);
    if init == [] {
      assert before.tracked == map[];
    } else {
      RunRemembers(init, created, p, client);
      TimesOfClient(init, client);
      if TimesOf(init, client) != [] {
        SoloStart(TimesOf(init, client), p);
      }
      PurgeForgetsNothing(before, client, alone, init[|init| - 1].at, now, p);
    }
  }

  /** A forgotten window and a finished one start over alike. */
  lemma CheckRemembers(s: Buckets, r: Request, client: Ip, alone: Option<Bucket>, p: Policy)
    requires Remembers(Lookup(Purged(s, r.at, p).tracked, client), alone, r.at, p) && !Untracked(s, r, p)
    ensures var after := Lookup(Check(s, r, p).0.tracked, client);
      if r.client == client then after == Some(Hit(alone, r.at, p)) else Remembers(after, alone, r.at, p)
  {
  }

  /** With an ordered clock, below the cap, every verdict is the one the client
      would have got alone: purging is unobservable, and so are other clients. */
  lemma ClientsAreIsolated(trace: seq<Request>, created: Time, p: Policy)
    requires trace != [] && Ordered(trace) && NeverFull(trace, created, p)
    ensures TimesOf(trace, trace[|trace| - 1].client) != []
    ensures LastVerdict(trace, created, p) == SoloVerdict(TimesOf(trace, trace[|trace| - 1].client), p)
  {
    RunRemembers(trace, created, p, trace[|trace| - 1].client);
  }

  /** How many of a client's requests in `[from, to)` the limiter admitted. */
  function Admitted(trace: seq<Request>, created: Time, p: Policy, client: Ip, from: Time, to: Time): nat {
    if trace == [] then 0
    else
      var r := trace[|trace| - 1];
      Admitted(trace[..|trace| - 1], created, p, client, from, to)
      + if r.client == client && from <= r.at < to && LastVerdict(trace, created, p).None? then 1 else 0
  }

  lemma {:induction false} AdmittedAsAlone(trace: seq<Request>, created: Time, p: Policy, client: Ip, from: Time, to: Time)
    requires Ordered(trace) && NeverFull(trace, created, p)
    ensures Admitted(trace, created, p, client, from, to) == AdmittedBetween(TimesOf(trace, client), from, to, p)
  {
    if trace != [] {
      var init, r := trace[..|trace| - 1], trace[|trace| - 1];
      AdmittedAsAlone(init, created, p, client, from, to);
      var times := TimesOf(trace, client);
      if r.client == client {
        ClientsAreIsolated(trace, created, p);
        assert times[..|times| - 1] == TimesOf(init, client);
      } else {
        assert times == TimesOf(init, client);
      }
    }
  }

  /** Below the cap, no span of one window's length admits a client more than twice `max`. */
  lemma RunSlidingBound(trace: seq<Request>, created: Time, p: Policy, client: Ip, from: Time)
    requires Ordered(trace) && NeverFull(trace, created, p)
    ensures Admitted(trace, created, p, client, from, from + p.window) <= 2 * p.max
  {
    AdmittedAsAlone(trace, created, p, client, from, from + p.window);
    TimesOfClient(trace, client);
    SlidingBound(TimesOf(trace, client), from, p);
  }

  // ------------------------------------------------------------ Retry-After

  /** One second past the announced wait, a refused client starts afresh. */
  lemma WaitingPastRetryIsEnough(b: Bucket, now: Time, later: Time, p: Policy)
    requires Judge(b, now, p).Some? && b.start <= now
    requires later >= now + (Judge(b, now, p).value + 1) * NANOS
    ensures Hit(Some(b), later, p) == Bucket(later, 1)
  {
  }

  /** The announced wait itself is rounded down: it is enough exactly when what was
      left of the window is a whole number of seconds, or less than one. */
  lemma WaitingRetryIff(b: Bucket, now: Time, p: Policy)
    requires Judge(b, now, p).Some? && b.start <= now < b.start + p.window
    ensures var left := b.start + p.window - now; var later := now + Judge(b, now, p).value * NANOS;
      Hit(Some(b), later, p) == Bucket(later, 1) <==> left % NANOS == 0 || left < NANOS
  {
    var left := b.start + p.window - now;
    assert left == NANOS * (left / NANOS) + left % NANOS;
    var later := now + Judge(b, now, p).value * NANOS;
    if left >= NANOS {
      assert Judge(b, now, p).value == left / NANOS;
    }
    assert Stale(b, later, p) <==> left <= Judge(b, now, p).value * NANOS;
  }

  lemma CheckFirst(s: Buckets, r: Request, p: Policy)
    requires s.tracked == map[]
    ensures Check(s, r, p) == (Buckets(map[r.client := Bucket(r.at, 1)], s.lastPurge), Judge(Bucket(r.at, 1), r.at, p))
  {
  }

  lemma CheckAgain(s: Buckets, b: Bucket, r: Request, p: Policy)
    requires s.tracked == map[r.client := b]
    ensures var next := Hit(Some(b), r.at, p);
      Check(s, r, p) == (Buckets(map[r.client := next], s.lastPurge), Judge(next, r.at, p))
  {
    assert |s.tracked| == 1 by { assert s.tracked.Keys == {r.client} && |s.tracked.Keys| == |s.tracked|; }
    assert s.tracked[r.client := Hit(Some(b), r.at, p)] == map[r.client := Hit(Some(b), r.at, p)];
  }

  /** One request per two seconds: a second one after half a second is refused and told to
      wait one second; a client that does is refused again. */
  lemma AnnouncedWaitCanBeTooShort(client: Ip, created: Time)
    ensures var p := Policy(1, 2 * NANOS);
      var first, second, third := Request(client, 0), Request(client, NANOS / 2), Request(client, NANOS / 2 + NANOS);
      && LastVerdict([first], created, p).None?
      && LastVerdict([first, second], created, p) == Some(1)
      && LastVerdict([first, second, third], created, p) == Some(1)
  {
    var p := Policy(1, 2 * NANOS);
    var first, second, third := Request(client, 0), Request(client, NANOS / 2), Request(client, NANOS / 2 + NANOS);
    var one, two, three := [first], [first, second], [first, second, third];
    assert one[..0] == [] && two[..1] == one && three[..2] == two;
    CheckFirst(Run([], created, p), first, p);
    CheckAgain(Run(one, created, p), Bucket(0, 1), second, p);
    CheckAgain(Run(two, created, p), Bucket(0, 2), third, p);
  }

  /** What a refusal leaves behind: the bucket it was judged by, in its window. */
  lemma RefusalLeavesBucket(s: Buckets, r: Request, p: Policy)
    requires Check(s, r, p).1.Some?
    ensures var kept := Lookup(Check(s, r, p).0.tracked, r.client);
      kept.Some? && kept.value.start <= r.at && Judge(kept.value, r.at, p) == Check(s, r, p).1
  {
  }

  lemma OthersCheck(s: Buckets, r: Request, client: Ip, p: Policy)
    requires r.client != client
    ensures var kept := Lookup(Check(s, r, p).0.tracked, client);
      kept == Lookup(s.tracked, client) || kept.None?
  {
  }

  /** Requests of other clients leave a client's bucket as it was or, by a purge, remove it. */
  lemma {:induction false} OthersLeaveBucket(trace: seq<Request>, others: seq<Request>, client: Ip, created: Time, p: Policy)
    requires forall i :: 0 <= i < |others| ==> others[i].client != client
    ensures var kept := Lookup(Run(trace + others, created, p).tracked, client);
      kept == Lookup(Run(trace, created, p).tracked, client) || kept.None?
    decreases |others|
  {
    if others == [] {
      assert trace + others == trace;
    } else {
      var init, last := others[..|others| - 1], others[|others| - 1];
      assert (trace + others)[..|trace + others| - 1] == trace + init;
      OthersLeaveBucket(trace, init, client, created, p);
      OthersCheck(Run(trace + init, created, p), last, client, p);
    }
  }

  lemma StartsOverIsAdmitted(s: Buckets, r: Request, p: Policy)
    requires p.max >= 1
    requires var kept := Lookup(s.tracked, r.client); kept.None? || Stale(kept.value, r.at, p)
    ensures Check(s, r, p).1.None?
  {
  }

  /** Over every run, whether the map is full or not and however the clock goes: a refused
      client that stays away for its `Retry-After` and one second more is admitted,
      whatever the other clients do meanwhile. */
  lemma RefusedClientIsReadmitted(trace: seq<Request>, others: seq<Request>, again: Request, created: Time, p: Policy)
    requires trace != [] && LastVerdict(trace, created, p).Some? && p.max >= 1
    requires again.client == trace[|trace| - 1].client
    requires forall i :: 0 <= i < |others| ==> others[i].client != again.client
    requires again.at >= trace[|trace| - 1].at + (LastVerdict(trace, created, p).value + 1) * NANOS
    ensures LastVerdict(trace + others + [again], created, p).None?
  {
    var whole, last := trace + others + [again], trace[|trace| - 1];
    assert whole[..|whole| - 1] == trace + others;
    RefusalLeavesBucket(Run(trace[..|trace| - 1], created, p), last, p);
    var b := Lookup(Run(trace, created, p).tracked, again.client).value;
    WaitingPastRetryIsEnough(b, last.at, again.at, p);
    OthersLeaveBucket(trace, others, again.client, created, p);
    StartsOverIsAdmitted(Run(trace + others, created, p), again, p);
  }

  // -------------------------------------------------------- refusals are earned

  /** How many requests a client made after `after` and up to `until`. */
  function Made(trace: seq<Request>, client: Ip, after: Time, until: Time): nat {
    if trace == [] then 0
    else
      var r := trace[|trace| - 1];
      Made(trace[..|trace| - 1], client, after, until) + if r.client == client && after < r.at <= until then 1 else 0
  }

  /** A bucket counts no request that was not made since it started. */
  ghost predicate Earned(trace: seq<Request>, client: Ip, b: Bucket) {
    forall after, until ::
      after < b.start && (forall i :: 0 <= i < |trace| ==> trace[i].at <= until) ==>
        b.count <= Made(trace, client, after, until)
  }

  ghost predicate EarnedIfKept(trace: seq<Request>, client: Ip, kept: Option<Bucket>) {
    kept.Some? ==> Earned(trace, client, kept.value)
  }

  lemma EarnedStep(trace: seq<Request>, r: Request, kept: Option<Bucket>, p: Policy)
    requires EarnedIfKept(trace, r.client, kept)
    ensures Earned(trace + [r], r.client, Hit(kept, r.at, p))
  {
    var more := trace + [r];
    assert more[..|trace|] == trace;
    forall after, until | after < Hit(kept, r.at, p).start && forall i :: 0 <= i < |more| ==> more[i].at <= until
      ensures Hit(kept, r.at, p).count <= Made(more, r.client, after, until)
    {
      assert more[|trace|].at <= until;
      assert forall i :: 0 <= i < |trace| ==> trace[i].at == more[i].at;
    }
  }

  lemma EarnedByOthers(trace: seq<Request>, r: Request, client: Ip, b: Bucket)
    requires Earned(trace, client, b)
    ensures Earned(trace + [r], client, b)
  {
    var more := trace + [r];
    assert more[..|trace|] == trace;
    forall after, until | after < b.start && forall i :: 0 <= i < |more| ==> more[i].at <= until
      ensures b.count <= Made(more, client, after, until)
    {
      assert forall i :: 0 <= i < |trace| ==> trace[i].at == more[i].at;
    }
  }

  lemma PurgeKeepsOrDrops(s: Buckets, now: Time, client: Ip, p: Policy)
    ensures var kept := Lookup(Purged(s, now, p).tracked, client);
      kept == Lookup(s.tracked, client) || kept.None?
  {
  }

  lemma CheckEarned(s: Buckets, trace: seq<Request>, r: Request, client: Ip, p: Policy)
    requires EarnedIfKept(trace, client, Lookup(s.tracked, client))
    ensures EarnedIfKept(trace + [r], client, Lookup(Check(s, r, p).0.tracked, client))
  {
    PurgeKeepsOrDrops(s, r.at, client, p);
    var kept := Lookup(Purged(s, r.at, p).tracked, client);
    if r.client == client {
      EarnedStep(trace, r, kept, p);
    }
    if kept.Some? {
      EarnedByOthers(trace, r, client, kept.value);
    }
  }

  lemma {:induction false} RunEarned(trace: seq<Request>, created: Time, p: Policy, client: Ip)
    ensures EarnedIfKept(trace, client, Lookup(Run(trace, created, p).tracked, client))
    decreases |trace|
  {
    if trace != [] {
      var init, last := trace[..|trace| - 1], trace[|trace| - 1];
      RunEarned(init, created, p, client);
      CheckEarned(Run(init, created, p), init, last, client, p);
      assert init + [last] == trace;
    }
  }

  lemma RefusalInWindow(s: Buckets, r: Request, p: Policy)
    requires Check(s, r, p).1.Some? && p.window > 0
    ensures var kept := Lookup(Check(s, r, p).0.tracked, r.client);
      kept.Some? && kept.value.start > r.at - p.window && kept.value.count > p.max
  {
  }

  /** In every run with an ordered clock, full or not: a refused client made more than
      `max` requests inside the window that ends now. */
  lemma RefusalIsEarned(trace: seq<Request>, created: Time, p: Policy)
    requires trace != [] && Ordered(trace) && p.window > 0 && LastVerdict(trace, created, p).Some?
    ensures var last := trace[|trace| - 1]; Made(trace, last.client, last.at - p.window, last.at) > p.max
  {
    var last := trace[|trace| - 1];
    RefusalInWindow(Run(trace[..|trace| - 1], created, p), last, p);
    RunEarned(trace, created, p, last.client);
  }
}
