/** The limiter as the server runs it: one bucket map, changed in place under a lock. */
module RateLimiter {
  import opened Basics
  import opened ClientKeys
  import opened RateLimit

  /** The request at position `i` of the trace got a 429. */
  predicate Refused(trace: seq<Request>, i: nat, created: Time, policy: Policy)
    requires i < |trace|
  {
    LastVerdict(trace[..i + 1], created, policy).Some?
  }

  /** `refused` lists the positions before `n` that got a 429. */
  ghost predicate RefusedAmong(refused: seq<nat>, trace: seq<Request>, n: nat, created: Time, policy: Policy)
    requires n <= |trace|
  {
    forall j: nat :: j in refused <==> j < n && Refused(trace, j, created, policy)
  }

  lemma OneMoreRefused(refused: seq<nat>, trace: seq<Request>, n: nat, created: Time, policy: Policy)
    requires n < |trace| && RefusedAmong(refused, trace, n, created, policy)
    ensures var more := if Refused(trace, n, created, policy) then refused + [n] else refused;
      RefusedAmong(more, trace, n + 1, created, policy)
  {
  }

  lemma OneMore(trace: seq<Request>, i: nat, created: Time, policy: Policy)
    requires i < |trace|
    ensures Run(trace[..i + 1], created, policy) == Check(Run(trace[..i], created, policy), trace[i], policy).0
    ensures Refused(trace, i, created, policy) <==> Check(Run(trace[..i], created, policy), trace[i], policy).1.Some?
  {
    assert trace[..i + 1][..i] == trace[..i];
  }

  class Limiter {
    const policy: Policy
    var tracked: Tracked
    var lastPurge: Time

    constructor (max: nat, window: nat, now: Time)
      ensures policy == Policy(max, window) && State() == Run([], now, policy)
    {
      policy, tracked, lastPurge := Policy(max, window), map[], now;
    }

    function State(): Buckets
      reads this
    {
      Buckets(tracked, lastPurge)
    }

    method Purge(now: Time)
      modifies this
      ensures State() == Purged(old(State()), now, policy)
    {
      if |tracked| > BUCKET_PURGE_THRESHOLD && Since(now, lastPurge) >= BUCKET_PURGE_INTERVAL {
        tracked := map k | k in tracked && Since(now, tracked[k].start) < policy.window :: tracked[k];
        lastPurge := now;
      }
    }

    /** One check, with the clock read under the lock. `Err` carries `Retry-After`. */
    method CheckWith(client: Ip, now: Time) returns (r: Result<(), nat>)
      requires |tracked| <= MAX_BUCKETS
      modifies this
      ensures State() == Check(old(State()), Request(client, now), policy).0
      ensures r == match Check(old(State()), Request(client, now), policy).1
                   case None => Ok(())
                   case Some(retry) => Err(retry)
      ensures |tracked| <= MAX_BUCKETS
      ensures |old(tracked)| < 200_000 || r.Err? ==> client in tracked
      ensures r.Err? ==> tracked[client].count > policy.max
    {
      CheckKeepsCap(State(), Request(client, now), policy);
      if |tracked| < 200_000 {
        CountedBelowCap(State(), Request(client, now), policy);
      }
      Purge(now);
      if |tracked| >= MAX_BUCKETS && client !in tracked {
        return Ok(());
      }
      var bucket := if client in tracked then tracked[client] else Bucket(now, 0);
      if now < bucket.start || now - bucket.start >= policy.window {
        bucket := Bucket(now, 0);
      }
      bucket := bucket.(count := bucket.count + 1);
      tracked := tracked[client := bucket];
      if bucket.count > policy.max {
        var elapsed := Since(now, bucket.start);
        var left := if policy.window < elapsed then 0 else policy.window - elapsed;
        var retry := if left / NANOS > 1 then left / NANOS else 1;
        return Err(retry);
      }
      r := Ok(());
    }

    /** The next request of a trace. */
    method ServeNext(trace: seq<Request>, i: nat, ghost created: Time) returns (refused: bool)
      requires i < |trace| && State() == Run(trace[..i], created, policy) && |tracked| <= MAX_BUCKETS
      modifies this
      ensures State() == Run(trace[..i + 1], created, policy) && |tracked| <= MAX_BUCKETS
      ensures refused <==> Refused(trace, i, created, policy)
    {
      OneMore(trace, i, created, policy);
      var r := CheckWith(trace[i].client, trace[i].at);
      refused := r.Err?;
    }

    /** A whole trace, one check after another. */
    method Serve(trace: seq<Request>) returns (refused: seq<nat>)
      requires tracked == map[]
      modifies this
      ensures State() == Run(trace, old(lastPurge), policy)
      ensures |tracked| <= MAX_BUCKETS
      ensures RefusedAmong(refused, trace, |trace|, old(lastPurge), policy)
    {
      refused := [];
      for i := 0 to |trace|
        invariant State() == Run(trace[..i], old(lastPurge), policy) && |tracked| <= MAX_BUCKETS
        invariant RefusedAmong(refused, trace, i, old(lastPurge), policy)
      {
        OneMoreRefused(refused, trace, i, old(lastPurge), policy);
        var now := ServeNext(trace, i, old(lastPurge));
        if now {
          refused := refused + [i];
        }
      }
      assert trace[..|trace|] == trace;
    }
  }
}
