/**
  The per-address request limiter: at most 100 requests in any 60-second
  window. Each address keeps the timestamps of its recent requests; a
  periodic cleanup drops stale timestamps and addresses left with none.
 */
module RateLimit {
  import Collections

  const WindowMs: int := 60000
  const MaxRequests: int := 100

  /** Strictly inside the window: a timestamp exactly 60 000 ms old no longer counts. */
  predicate IsRecent(now: int, t: int) { now - t < WindowMs }

  function RecentAt(now: int): int -> bool {
    t => IsRecent(now, t)
  }

  /** The timestamps still inside the window, in their order. */
  function RecentOf(timestamps: seq<int>, now: int): (r: seq<int>)
    ensures |r| <= |timestamps|
    ensures forall i :: 0 <= i < |r| ==> IsRecent(now, r[i]) && r[i] in timestamps
    ensures forall t :: t in timestamps && IsRecent(now, t) ==> t in r
  {
    Collections.Filter(timestamps, RecentAt(now))
  }

  /** The stored timestamps of an address; none when it has no entry. */
  function Stored(requests: map<string, seq<int>>, ip: string): seq<int> {
    if ip in requests then requests[ip] else []
  }

  /**
    One `isRateLimited(ip)` at time `now`, as a function of the map: whether
    the request is refused, and the map afterwards.
   */
  function Check(requests: map<string, seq<int>>, ip: string, now: int): (bool, map<string, seq<int>>) {
    var recent := RecentOf(Stored(requests, ip), now);
    if |recent| >= MaxRequests then (true, requests[ip := recent])
    else (false, requests[ip := recent + [now]])
  }

  /**
    A request is refused exactly when the address already has 100 recent
    timestamps; a refused request is not recorded, an accepted one is
    appended; stale timestamps are dropped either way, and no other address
    is touched.
   */
  lemma CheckSpec(requests: map<string, seq<int>>, ip: string, now: int)
    ensures var (limited, after) := Check(requests, ip, now);
      var recent := RecentOf(Stored(requests, ip), now);
      && (limited <==> |recent| >= MaxRequests)
      && after.Keys == requests.Keys + {ip}
      && after[ip] == (if limited then recent else recent + [now])
      && (forall other :: other in requests && other != ip ==> after[other] == requests[other])
  {
  }

  /** Every address holds at most 100 timestamps. */
  predicate Bounded(requests: map<string, seq<int>>) {
    forall ip :: ip in requests ==> |requests[ip]| <= MaxRequests
  }

  /** Starting from a bounded map (the empty one, say), every call keeps it bounded. */
  lemma CheckKeepsBound(requests: map<string, seq<int>>, ip: string, now: int)
    requires Bounded(requests)
    ensures Bounded(Check(requests, ip, now).1)
  {
    var recent := RecentOf(Stored(requests, ip), now);
    assert |Stored(requests, ip)| <= MaxRequests;
    assert |recent| <= MaxRequests;
  }

  /** What the cleanup leaves: the recent timestamps of each address that still has some. */
  function Pruned(requests: map<string, seq<int>>, now: int): map<string, seq<int>> {
    map ip | ip in requests && RecentOf(requests[ip], now) != [] :: RecentOf(requests[ip], now)
  }

  /** The map part-way through the cleanup loop: the addresses in `done` are pruned, the others untouched. */
  ghost function PartlyPruned(requests: map<string, seq<int>>, now: int, done: set<string>): map<string, seq<int>> {
    map ip | ip in requests && (ip !in done || RecentOf(requests[ip], now) != []) ::
      if ip in done then RecentOf(requests[ip], now) else requests[ip]
  }

  /** Pruning one more address drops it or replaces its list by the recent part. */
  lemma PruneStep(requests: map<string, seq<int>>, now: int, done: set<string>, ip: string)
    requires ip in requests && ip !in done
    ensures var before := PartlyPruned(requests, now, done);
      var recent := RecentOf(requests[ip], now);
      && ip in before && before[ip] == requests[ip]
      && PartlyPruned(requests, now, done + {ip}) == if recent == [] then before - {ip} else before[ip := recent]
  {
  }

  /** Once every address is done, the loop has produced the cleanup's result. */
  lemma PartlyPrunedAll(requests: map<string, seq<int>>, now: int)
    ensures PartlyPruned(requests, now, requests.Keys) == Pruned(requests, now)
  {
  }

  /** The cleanup only shortens lists, so it keeps every address within the limit. */
  lemma PrunedBounded(requests: map<string, seq<int>>, now: int)
    requires Bounded(requests)
    ensures Bounded(Pruned(requests, now))
  {
    var after := Pruned(requests, now);
    forall ip | ip in after ensures |after[ip]| <= MaxRequests {
      assert |requests[ip]| <= MaxRequests;
    }
  }

  /**
    After a cleanup every address left has a non-empty list of recent
    timestamps, and an address is left exactly when it had a recent one.
   */
  lemma PrunedSpec(requests: map<string, seq<int>>, now: int)
    ensures var after := Pruned(requests, now);
      && (forall ip :: ip in after ==> after[ip] != [] && forall i :: 0 <= i < |after[ip]| ==> IsRecent(now, after[ip][i]))
      && (forall ip :: ip in requests ==> (ip in after <==> exists i :: 0 <= i < |requests[ip]| && IsRecent(now, requests[ip][i])))
  {
    var after := Pruned(requests, now);
    forall ip | ip in requests
      ensures ip in after <==> exists i :: 0 <= i < |requests[ip]| && IsRecent(now, requests[ip][i])
    {
      var r := RecentOf(requests[ip], now);
      if exists i :: 0 <= i < |requests[ip]| && IsRecent(now, requests[ip][i]) {
        var i :| 0 <= i < |requests[ip]| && IsRecent(now, requests[ip][i]);
        assert requests[ip][i] in r;
      }
      if r != [] {
        assert r[0] in requests[ip];
      }
    }
  }

  class RateLimiter {
    var requests: map<string, seq<int>>

    ghost predicate Valid()
      reads this
    {
      Bounded(requests)
    }

    constructor ()
      ensures Valid() && requests == map[]
    {
      requests := map[];
    }

    /** `isRateLimited(ip)` with `Date.now()` as `now`. */
    method IsRateLimited(ip: string, now: int) returns (limited: bool)
      requires Valid()
      modifies this
      ensures Valid()
      ensures (limited, requests) == Check(old(requests), ip, now)
    {
      var timestamps := if ip in requests then requests[ip] else [];
      var recent := RecentOf(timestamps, now);
      if |recent| >= MaxRequests {
        requests := requests[ip := recent];
        limited := true;
      } else {
        requests := requests[ip := recent + [now]];
        limited := false;
      }
      CheckKeepsBound(old(requests), ip, now);
    }

    /** The periodic cleanup at time `now`: one pass over the addresses. */
    method Cleanup(now: int)
      requires Valid()
      modifies this
      ensures Valid()
      ensures requests == Pruned(old(requests), now)
    {
      var pending := requests.Keys;
      ghost var start := requests;
      ghost var done: set<string> := {};
      assert requests == PartlyPruned(start, now, done);
      while pending != {}
        invariant pending <= start.Keys && done == start.Keys - pending
        invariant requests == PartlyPruned(start, now, done)
        decreases pending
      {
        var ip :| ip in pending;
        var recent := RecentOf(requests[ip], now);
        PruneStep(start, now, done, ip);
        if |recent| == 0 {
          requests := requests - {ip};
        } else {
          requests := requests[ip := recent];
        }
        pending := pending - {ip};
        done := done + {ip};
      }
      PartlyPrunedAll(start, now);
      PrunedBounded(start, now);
    }
  }
}
