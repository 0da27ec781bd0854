/** The token bucket and the traffic class as objects; the clock and the moments at which a blocked caller
    tries again are parameters. */
module TokenBucket {
  import M = BucketModel

  class TokenBucket {
    const capacity: int
    const refillRate: int
    var tokens: int
    var lastRefill: real

    ghost function View(): M.Bucket
      reads this
    {
      M.Bucket(capacity, tokens, refillRate, lastRefill)
    }

    constructor (burst: int, rate: int, now: real)
      ensures View() == M.New(burst, rate, now)
    {
      capacity, refillRate, tokens, lastRefill := burst, rate, burst, now;
    }

    method Refill(now: real)
      modifies this
      ensures View() == M.Refill(old(View()), now)
    {
      var elapsed := now - lastRefill;
      tokens := M.Min(capacity, tokens + M.Trunc(M.Earning(refillRate, elapsed)));
      lastRefill := now;
    }

    method Take(n: int, now: real) returns (ok: bool)
      modifies this
      ensures (View(), ok) == M.Take(old(View()), n, now)
    {
      Refill(now);
      if tokens >= n {
        tokens := tokens - n;
        return true;
      }
      return false;
    }

    method Wait(n: int, polls: seq<real>) returns (ok: bool)
      modifies this
      ensures (View(), ok) == M.Wait(old(View()), n, polls)
    {
      ghost var whole := M.Wait(View(), n, polls);
      assert polls[0..] == polls;
      for i := 0 to |polls|
        invariant M.Wait(View(), n, polls[i..]) == whole
      {
        assert polls[i..][0] == polls[i] && polls[i..][1..] == polls[i + 1..];
        ok := Take(n, polls[i]);
        if ok {
          return true;
        }
      }
      return false;
    }
  }

  class QoSClass {
    const bucket: TokenBucket
    var bytesSent: int
    var bytesDropped: int
    var packetsSent: int
    var packetsDropped: int

    ghost function Counters(): M.Stats
      reads this
    {
      M.Stats(bytesSent, bytesDropped, packetsSent, packetsDropped)
    }

    constructor (limiter: TokenBucket)
      ensures bucket == limiter && Counters() == M.Stats(0, 0, 0, 0)
    {
      bucket := limiter;
      bytesSent, bytesDropped, packetsSent, packetsDropped := 0, 0, 0, 0;
    }

    method Send(size: nat, polls: seq<real>) returns (ok: bool)
      modifies this, bucket
      ensures (bucket.View(), Counters()) == M.Send(old(bucket.View()), old(Counters()), M.Transfer(size, polls))
    {
      ok := bucket.Wait(size, polls);
      if !ok {
        packetsDropped := packetsDropped + 1;
        bytesDropped := bytesDropped + size;
        return;
      }
      packetsSent := packetsSent + 1;
      bytesSent := bytesSent + size;
    }
  }
}
