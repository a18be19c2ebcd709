/**
 The limiter in numbers: how many clients it can tell apart, when it forgets one,
 and how long it tells one to wait.
 */
module RateClients {
  import opened Basics
  import opened ClientKeys
  import opened RateLimit

  /** The different clients of a trace. */
  ghost function Clients(trace: seq<Request>): set<Ip> {
    set i | 0 <= i < |trace| :: trace[i].client
  }

  lemma {:induction false} TrackedAreClients(trace: seq<Request>, created: Time, p: Policy)
    ensures Run(trace, created, p).tracked.Keys <= Clients(trace)
    decreases |trace|
  {
    if trace != [] {
      var init, last := trace[..|trace| - 1], trace[|trace| - 1];
      TrackedAreClients(init, created, p);
      LastJoins(trace);
      CheckTracks(Run(init, created, p), last, p);
    }
  }

  lemma LastJoins(trace: seq<Request>)
    requires trace != []
    ensures Clients(trace) == Clients(trace[..|trace| - 1]) + {trace[|trace| - 1].client}
  {
    var init, last := trace[..|trace| - 1], trace[|trace| - 1];
    forall c | c in Clients(init) + {last.client} ensures c in Clients(trace) {
      if c in Clients(init) {
        var i :| 0 <= i < |init| && init[i].client == c;
        assert trace[i].client == c;
      } else {
        assert trace[|trace| - 1].client == c;
      }
    }
    forall c | c in Clients(trace) ensures c in Clients(init) + {last.client} {
      var i :| 0 <= i < |trace| && trace[i].client == c;
      if i < |init| {
        assert init[i].client == c;
      }
    }
  }

  lemma CheckTracks(s: Buckets, r: Request, p: Policy)
    ensures Purged(s, r.at, p).tracked.Keys <= s.tracked.Keys
    ensures Check(s, r, p).0.tracked.Keys <= s.tracked.Keys + {r.client}
  {
  }

  /** Up to 200,000 different clients, no request meets the cap. */
  lemma {:induction false} NeverFullWithFewClients(trace: seq<Request>, created: Time, p: Policy)
    requires |set i | 0 <= i < |trace| :: trace[i].client| <= 200_000
    ensures NeverFull(trace, created, p)
    decreases |trace|
  {
    assert Clients(trace) == set i | 0 <= i < |trace| :: trace[i].client;
    if trace != [] {
      var init, last := trace[..|trace| - 1], trace[|trace| - 1];
      LastJoins(trace);
      SubsetIsNoLarger(Clients(init), Clients(trace));
      assert Clients(init) == set i | 0 <= i < |init| :: init[i].client;
      NeverFullWithFewClients(init, created, p);
      TrackedAreClients(init, created, p);
      RoomForOne(Run(init, created, p), last, Clients(trace), p);
    }
  }

  lemma RoomForOne(s: Buckets, r: Request, clients: set<Ip>, p: Policy)
    requires s.tracked.Keys + {r.client} <= clients && |clients| <= 200_000
    ensures !Untracked(s, r, p)
  {
    var kept := Purged(s, r.at, p).tracked;
    CheckTracks(s, r, p);
    if r.client !in kept {
      SubsetIsNoLarger(kept.Keys + {r.client}, clients);
      assert |kept.Keys + {r.client}| == |kept.Keys| + 1;
      assert |kept.Keys| == |kept|;
    }
  }

  /** With an ordered clock and at most 200,000 clients, every answer is the one
      its client would have got alone. */
  lemma FewClientsAreIsolated(trace: seq<Request>, created: Time, p: Policy)
    requires trace != [] && Ordered(trace)
    requires |set i | 0 <= i < |trace| :: trace[i].client| <= 200_000
    ensures TimesOf(trace, trace[|trace| - 1].client) != []
    ensures LastVerdict(trace, created, p) == SoloVerdict(TimesOf(trace, trace[|trace| - 1].client), p)
  {
    NeverFullWithFewClients(trace, created, p);
    ClientsAreIsolated(trace, created, p);
  }

  /** With as many clients at most, no client has more than twice `max` requests
      admitted in one window's length. */
  lemma FewClientsSlidingBound(trace: seq<Request>, created: Time, p: Policy, client: Ip, from: Time)
    requires Ordered(trace)
    requires |set i | 0 <= i < |trace| :: trace[i].client| <= 200_000
    ensures Admitted(trace, created, p, client, from, from + p.window) <= 2 * p.max
  {
    NeverFullWithFewClients(trace, created, p);
    RunSlidingBound(trace, created, p, client, from);
  }

  /** Exactly when a request is let through without being counted: 200,000
      other clients or more are left after the purge that the request itself may cause. */
  lemma UncountedIff(s: Buckets, r: Request, p: Policy)
    ensures
      var due := |s.tracked| > 10_000 && r.at >= s.lastPurge + 1_000_000_000;
      var left := if due then
          map k | k in s.tracked && 0 < p.window && r.at < s.tracked[k].start + p.window :: s.tracked[k]
        else s.tracked;
      if |left| >= 200_000 && r.client !in left then
        Check(s, r, p).0.tracked == left && Check(s, r, p).1.None?
      else
        r.client in Check(s, r, p).0.tracked
  {
    var due := |s.tracked| > 10_000 && r.at >= s.lastPurge + 1_000_000_000;
    var left := if due then
        map k | k in s.tracked && 0 < p.window && r.at < s.tracked[k].start + p.window :: s.tracked[k]
      else s.tracked;
    assert Purged(s, r.at, p).tracked == left;
  }

  /** A refusal names the whole seconds left of the window, and one at the least. */
  lemma RetryIs(b: Bucket, now: Time, p: Policy)
    requires Judge(b, now, p).Some? && b.start <= now < b.start + p.window
    ensures var retry, left := Judge(b, now, p).value, b.start + p.window - now;
      && retry >= 1
      && (left < 1_000_000_000 ==> retry == 1)
      && (left >= 1_000_000_000 ==> retry * 1_000_000_000 <= left < (retry + 1) * 1_000_000_000)
  {
  }

  /** Alone, a client is refused exactly when more than `max` of its requests fall
      in the window that the first of them opened. */
  lemma {:induction false} BurstIsCut(start: Time, times: seq<Time>, p: Policy)
    requires times != [] && times[0] == start && Sorted(times) && times[|times| - 1] < start + p.window
    ensures Solo(times, p) == Some(Bucket(start, |times|))
    ensures SoloVerdict(times, p).Some? <==> |times| > p.max
    decreases |times|
  {
    if |times| > 1 {
      BurstIsCut(start, times[..|times| - 1], p);
    }
  }
}
