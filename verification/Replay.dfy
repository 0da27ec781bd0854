/** The proof-of-work validator with its replay cache, as it runs. */
module Replay {
  import opened ReplayModel

  /** PowReplayWindow, five minutes in nanoseconds. */
  const Window := 300_000_000_000

  class PoWValidator {
    var seen: Cache

    constructor ()
      ensures seen == map[]
    {
      seen := map[];
    }

    /** `works` says whether the solution proves the work. */
    method Validate(challenge: Challenge, works: bool, now: int) returns (ok: bool)
      requires |seen| <= Cap
      modifies this
      ensures ok <==> works && Fresh(challenge, now, Window) && !Replayed(old(seen), challenge, now, Window)
      ensures ok ==> Settled(old(seen)[challenge := now], now, Window, seen)
      ensures !ok ==> seen == old(seen)
      ensures |seen| <= Cap
    {
      if !works {
        return false;
      }
      var age := now - challenge.stamp;
      if !(age <= Window && age >= -Window) {
        return false;
      }
      if challenge in seen && now - seen[challenge] < Window {
        return false;
      }
      seen := seen[challenge := now];
      if |seen| > Cap {
        ghost var full := seen;
        seen := PurgeStale(seen, now - Window);
        while |seen| > Cap
          invariant Trimmed(full, now, seen)
          decreases |seen|
        {
          var oldest := Oldest(seen);
          DropOldest(full, now, seen, oldest);
          seen := seen - {oldest};
        }
      }
      return true;
    }
  }

  // A cache on its way down to the cap.
  ghost predicate Trimmed(full: Cache, now: int, seen: Cache) {
    && (forall k :: k in seen ==> k in full && seen[k] == full[k])
    && (forall k, j :: k in full && k !in seen && j in seen ==> full[k] <= full[j])
    && (forall k :: k in full && k !in seen ==> full[k] < now - Window || |seen| >= Cap)
  }

  lemma DropOldest(full: Cache, now: int, seen: Cache, oldest: Challenge)
    requires Trimmed(full, now, seen) && |seen| > Cap && oldest in seen && forall j :: j in seen ==> seen[oldest] <= seen[j]
    ensures Trimmed(full, now, seen - {oldest}) && |seen - {oldest}| == |seen| - 1
  {
    var less := seen - {oldest};
    assert less.Keys == seen.Keys - {oldest};
    assert |less.Keys| == |less| && |seen.Keys| == |seen|;
  }

  /** Visits every entry and deletes those from before the cutoff. */
  method PurgeStale(cache: Cache, cutoff: int) returns (kept: Cache)
    ensures forall k :: k in kept <==> k in cache && cache[k] >= cutoff
    ensures forall k :: k in kept ==> kept[k] == cache[k]
  {
    kept := cache;
    var todo := cache.Keys;
    while todo != {}
      invariant todo <= cache.Keys
      invariant forall k :: k in kept ==> k in cache && kept[k] == cache[k]
      invariant forall k :: k in cache && (k in todo || cache[k] >= cutoff) ==> k in kept
      invariant forall k :: k in kept && k !in todo ==> cache[k] >= cutoff
      decreases |todo|
    {
      var k :| k in todo;
      todo := todo - {k};
      if cache[k] < cutoff {
        kept := kept - {k};
      }
    }
  }

  method Oldest(cache: Cache) returns (oldest: Challenge)
    requires |cache| > 0
    ensures oldest in cache && forall j :: j in cache ==> cache[oldest] <= cache[j]
  {
    var todo := cache.Keys;
    assert todo != {} by { assert |cache.Keys| == |cache|; }
    oldest :| oldest in todo;
    while todo != {}
      invariant todo <= cache.Keys && oldest in cache
      invariant forall j :: j in cache && j !in todo ==> cache[oldest] <= cache[j]
      decreases |todo|
    {
      var k :| k in todo;
      todo := todo - {k};
      if cache[k] < cache[oldest] {
        oldest := k;
      }
    }
  }
}
