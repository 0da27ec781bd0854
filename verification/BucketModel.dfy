/** The token bucket on values. Times are seconds, read from a clock that does not go back. */
module BucketModel {
  datatype Bucket = Bucket(capacity: int, tokens: int, rate: int, last: real)

  function New(capacity: int, rate: int, now: real): Bucket { Bucket(capacity, capacity, rate, now) }

  // Conversion to an integer cuts towards zero.
  function Trunc(x: real): int { if x >= 0.0 then x.Floor else -((-x).Floor) }

  function Min(a: int, b: int): int { if a <= b then a else b }

  // What a time brings, before the cut.
  function Earning(rate: int, time: real): real { time * rate as real }

  function Refill(b: Bucket, now: real): Bucket {
    b.(tokens := Min(b.capacity, b.tokens + Trunc(Earning(b.rate, now - b.last))), last := now)
  }

  function Take(b: Bucket, n: int, now: real): (Bucket, bool) {
    var r := Refill(b, now);
    if r.tokens >= n then (r.(tokens := r.tokens - n), true) else (r, false)
  }

  /** Blocks until n tokens are there: one attempt at each of the times, until one succeeds or the context
      is cancelled, after the last of them. */
  function Wait(b: Bucket, n: int, polls: seq<real>): (Bucket, bool)
    decreases |polls|
  {
    if polls == [] then (b, false)
    else
      var (c, ok) := Take(b, n, polls[0]);
      if ok then (c, true) else Wait(c, n, polls[1..])
  }

  predicate Valid(b: Bucket) { 0 <= b.tokens <= b.capacity && 0 <= b.rate }

  // The times are in order and none is before t.
  predicate Since(t: real, polls: seq<real>) {
    && (forall i :: 0 <= i < |polls| ==> t <= polls[i])
    && (forall i, j :: 0 <= i <= j < |polls| ==> polls[i] <= polls[j])
  }

  // ---------- never more than burst plus rate times window ----------

  lemma EarningPositive(rate: int, time: real)
    requires rate >= 0 && time >= 0.0
    ensures Earning(rate, time) >= 0.0
  {
  }

  lemma EarningAdds(rate: int, s: real, t: real)
    ensures Earning(rate, s) + Earning(rate, t) == Earning(rate, s + t) && Earning(rate, 0.0) == 0.0
  {
  }

  /** From b to c later: tokens granted plus tokens left do not exceed tokens held plus tokens earned. */
  ghost predicate Within(b: Bucket, c: Bucket, granted: int) {
    && Valid(c) && b.last <= c.last && c.capacity == b.capacity && c.rate == b.rate
    && (c.tokens + granted) as real <= b.tokens as real + Earning(b.rate, c.last - b.last)
  }

  /** A refill brings exactly the whole tokens the time has earned, up to the capacity. */
  lemma RefillExact(b: Bucket, now: real)
    requires Valid(b) && b.last <= now
    ensures var r := Refill(b, now); var earned := (now - b.last) * b.rate as real;
            && r.last == now && b.tokens <= r.tokens <= b.capacity && (r.tokens - b.tokens) as real <= earned
            && (r.tokens < b.capacity ==> earned < (r.tokens - b.tokens) as real + 1.0)
  {
    EarningPositive(b.rate, now - b.last);
  }

  // What is earned, cut to whole tokens.
  ghost predicate Whole(earned: nat, time: real, rate: int) {
    earned as real <= time * rate as real < earned as real + 1.0
  }

  /** One attempt: the whole tokens earned are added up to the capacity, and then exactly n are taken if there are as
      many, and none otherwise. */
  lemma {:induction false} TakeExact(b: Bucket, n: nat, now: real, time: real, c: Bucket, ok: bool) returns (earned: nat)
    requires Valid(b) && b.last <= now && time == now - b.last && (c, ok) == Take(b, n, now)
    ensures Whole(earned, time, b.rate) && c.last == now && c.capacity == b.capacity && c.rate == b.rate
    ensures var held := if b.tokens + earned <= b.capacity then b.tokens + earned else b.capacity;
            (ok <==> n <= held) && c.tokens == held - if ok then n else 0
  {
    EarningPositive(b.rate, time);
    earned := Earning(b.rate, time).Floor;
  }

  lemma WithinAdds(b: Bucket, c: Bucket, d: Bucket, g: int, h: int)
    requires Within(b, c, g) && Within(c, d, h)
    ensures Within(b, d, g + h)
  {
    EarningAdds(b.rate, c.last - b.last, d.last - c.last);
    assert (c.last - b.last) + (d.last - c.last) == d.last - b.last;
  }

  lemma TakeBound(b: Bucket, n: nat, now: real)
    requires Valid(b) && b.last <= now
    ensures Within(b, Take(b, n, now).0, if Take(b, n, now).1 then n else 0) && Take(b, n, now).0.last == now
  {
    EarningPositive(b.rate, now - b.last);
  }

  lemma {:induction false} WaitWithin(b: Bucket, n: nat, polls: seq<real>)
    requires Valid(b) && Since(b.last, polls)
    ensures Within(b, Wait(b, n, polls).0, if Wait(b, n, polls).1 then n else 0)
    ensures polls != [] ==> Wait(b, n, polls).0.last <= polls[|polls| - 1]
    decreases |polls|
  {
    if polls != [] {
      TakeBound(b, n, polls[0]);
      var (c, ok) := Take(b, n, polls[0]);
      if !ok {
        WaitWithin(c, n, polls[1..]);
        var (d, done) := Wait(c, n, polls[1..]);
        WithinAdds(b, c, d, 0, if done then n else 0);
      }
    }
  }

  // The bound, with what was earned written out.
  lemma {:induction false} Plainly(got: int, held: int, rate: int, time: real, span: real)
    requires got as real <= held as real + Earning(rate, span) && time == span
    ensures got as real <= held as real + time * rate as real
  {
  }

  lemma {:induction false} WithinPlainly(b: Bucket, c: Bucket, granted: int, time: real)
    requires Within(b, c, granted) && time == c.last - b.last
    ensures (c.tokens + granted) as real <= b.tokens as real + time * b.rate as real
  {
    Plainly(c.tokens + granted, b.tokens, b.rate, time, c.last - b.last);
  }

  /** Blocked or not, over the attempts of a Wait: tokens granted plus tokens left are at most the tokens held plus the
      rate times the time, and between none and the capacity. */
  lemma {:induction false} WaitBound(b: Bucket, n: nat, polls: seq<real>, c: Bucket, ok: bool, time: real)
    requires Valid(b) && Since(b.last, polls) && (c, ok) == Wait(b, n, polls) && time == c.last - b.last
    ensures (c.tokens + if ok then n else 0) as real <= b.tokens as real + time * b.rate as real
    ensures 0 <= c.tokens <= b.capacity
  {
    WaitWithin(b, n, polls);
    WithinPlainly(b, c, if ok then n else 0, time);
  }

  // ---------- a traffic class ----------

  datatype Transfer = Transfer(size: nat, polls: seq<real>)
  datatype Stats = Stats(bytesSent: int, bytesDropped: int, packetsSent: int, packetsDropped: int)

  function Send(b: Bucket, s: Stats, t: Transfer): (Bucket, Stats) {
    var (c, ok) := Wait(b, t.size, t.polls);
    (c, if ok then s.(bytesSent := s.bytesSent + t.size, packetsSent := s.packetsSent + 1)
        else s.(bytesDropped := s.bytesDropped + t.size, packetsDropped := s.packetsDropped + 1))
  }

  function Traffic(b: Bucket, s: Stats, ts: seq<Transfer>): (Bucket, Stats)
    decreases |ts|
  {
    if ts == [] then (b, s) else var (c, u) := Send(b, s, ts[0]); Traffic(c, u, ts[1..])
  }

  // Transfers follow one another.
  predicate InOrder(t: real, ts: seq<Transfer>)
    decreases |ts|
  {
    ts == [] || (ts[0].polls != [] && Since(t, ts[0].polls) && InOrder(ts[0].polls[|ts[0].polls| - 1], ts[1..]))
  }

  function Offered(ts: seq<Transfer>): int {
    if ts == [] then 0 else ts[0].size + Offered(ts[1..])
  }

  lemma SinceEarlier(t: real, u: real, ts: seq<Transfer>)
    requires InOrder(u, ts) && t <= u
    ensures InOrder(t, ts)
  {
  }

  lemma {:induction false} TrafficFromHere(b: Bucket, s: Stats, ts: seq<Transfer>)
    requires Valid(b) && InOrder(b.last, ts)
    ensures Within(b, Traffic(b, s, ts).0, Traffic(b, s, ts).1.bytesSent - s.bytesSent)
    decreases |ts|
  {
    if ts != [] {
      var (c, u) := Send(b, s, ts[0]);
      WaitWithin(b, ts[0].size, ts[0].polls);
      SinceEarlier(c.last, ts[0].polls[|ts[0].polls| - 1], ts[1..]);
      TrafficFromHere(c, u, ts[1..]);
      var (d, v) := Traffic(c, u, ts[1..]);
      WithinAdds(b, c, d, u.bytesSent - s.bytesSent, v.bytesSent - u.bytesSent);
    } else {
      EarningAdds(b.rate, 0.0, 0.0);
    }
  }

  /** Any run of transfers, hence any stretch of a longer run, whatever came before it: the bytes sent are at
      most the burst plus the rate times the time from its first attempt to its last, and everything
      offered is either sent or dropped. */
  lemma {:induction false} TrafficBound(b: Bucket, s: Stats, ts: seq<Transfer>, c: Bucket, u: Stats, time: real)
    requires Valid(b) && InOrder(b.last, ts) && ts != [] && (c, u) == Traffic(b, s, ts) && time == c.last - ts[0].polls[0]
    ensures Valid(c)
    ensures (u.bytesSent - s.bytesSent) as real <= b.capacity as real + time * b.rate as real
    ensures u.bytesSent + u.bytesDropped == s.bytesSent + s.bytesDropped + Offered(ts)
    ensures u.packetsSent + u.packetsDropped == s.packetsSent + s.packetsDropped + |ts|
  {
    SentBound(b, s, ts, c, u.bytesSent - s.bytesSent);
    Plainly(u.bytesSent - s.bytesSent, b.capacity, b.rate, time, c.last - ts[0].polls[0]);
    Accounted(b, s, ts);
  }

  lemma SentBound(b: Bucket, s: Stats, ts: seq<Transfer>, c: Bucket, sent: int)
    requires Valid(b) && InOrder(b.last, ts) && ts != []
    requires c == Traffic(b, s, ts).0 && sent == Traffic(b, s, ts).1.bytesSent - s.bytesSent
    ensures Valid(c) && sent as real <= b.capacity as real + Earning(b.rate, c.last - ts[0].polls[0])
  {
    RefilledTraffic(b, s, ts);
    var full := Refill(b, ts[0].polls[0]);
    TrafficFromHere(full, s, ts);
    WithinCapacity(full, c, sent, b, ts[0].polls[0]);
  }

  lemma RefilledTraffic(b: Bucket, s: Stats, ts: seq<Transfer>)
    requires Valid(b) && InOrder(b.last, ts) && ts != []
    ensures var full := Refill(b, ts[0].polls[0]);
            && Valid(full) && full.last == ts[0].polls[0] && full.capacity == b.capacity && full.rate == b.rate
            && InOrder(full.last, ts) && Traffic(full, s, ts) == Traffic(b, s, ts)
  {
    RefilledFirst(b, ts[0].size, ts[0].polls);
    TakeBound(b, 0, ts[0].polls[0]);
  }

  lemma WithinCapacity(full: Bucket, c: Bucket, granted: int, b: Bucket, start: real)
    requires Within(full, c, granted) && full.tokens <= full.capacity
    requires full.capacity == b.capacity && full.rate == b.rate && full.last == start
    ensures granted as real <= b.capacity as real + Earning(b.rate, c.last - start)
  {
  }

  // Refilling at the time of the first attempt anyway changes nothing.
  lemma RefilledFirst(b: Bucket, n: nat, polls: seq<real>)
    requires polls != [] && b.tokens <= b.capacity
    ensures Wait(Refill(b, polls[0]), n, polls) == Wait(b, n, polls)
  {
    var r := Refill(b, polls[0]);
    EarningAdds(r.rate, 0.0, 0.0);
    assert Refill(r, polls[0]) == r;
  }

  lemma {:induction false} Accounted(b: Bucket, s: Stats, ts: seq<Transfer>)
    ensures var u := Traffic(b, s, ts).1;
            && u.bytesSent + u.bytesDropped == s.bytesSent + s.bytesDropped + Offered(ts)
            && u.packetsSent + u.packetsDropped == s.packetsSent + s.packetsDropped + |ts|
    decreases |ts|
  {
    if ts != [] {
      var (c, u) := Send(b, s, ts[0]);
      Accounted(c, u, ts[1..]);
    }
  }

  // The transfers that get their tokens, and how many bytes they are.
  function Granted(b: Bucket, ts: seq<Transfer>): (int, int)
    decreases |ts|
  {
    if ts == [] then (0, 0)
    else
      var (c, ok) := Wait(b, ts[0].size, ts[0].polls);
      var (packets, total) := Granted(c, ts[1..]);
      if ok then (packets + 1, total + ts[0].size) else (packets, total)
  }

  /** What is counted as sent is exactly what got its tokens, packets and bytes; the rest is counted as dropped. */
  lemma {:induction false} SentIsGranted(b: Bucket, s: Stats, ts: seq<Transfer>)
    ensures var u := Traffic(b, s, ts).1; var (packets, total) := Granted(b, ts);
            && u.packetsSent == s.packetsSent + packets && u.packetsDropped == s.packetsDropped + |ts| - packets
            && u.bytesSent == s.bytesSent + total && u.bytesDropped == s.bytesDropped + Offered(ts) - total
    decreases |ts|
  {
    if ts != [] {
      var (c, u) := Send(b, s, ts[0]);
      SentIsGranted(c, u, ts[1..]);
    }
  }

  /** A new bucket is full: its first caller gets anything up to the capacity at once, and nothing larger. */
  lemma {:induction false} FirstBurst(capacity: nat, rate: nat, n: nat, now: real)
    ensures Take(New(capacity, rate, now), n, now).1 <==> n <= capacity
  {
    EarningAdds(rate, 0.0, 0.0);
    assert now - now == 0.0;
  }

  // ---------- senders at the same time ----------

  /** Several Sends under way on one class: the sizes of the packets still waiting for their tokens. */
  datatype Pool = Pool(bucket: Bucket, waiting: seq<nat>, stats: Stats)

  /** A Send starts, the i-th waiting one tries, or its context is cancelled. */
  datatype Event = Begin(size: nat) | Try(i: nat, now: real) | Cancel(i: nat)

  function Drop(waiting: seq<nat>, i: nat): seq<nat>
    requires i < |waiting|
  {
    waiting[..i] + waiting[i + 1..]
  }

  function Next(p: Pool, e: Event): Pool {
    match e
    case Begin(size) => p.(waiting := p.waiting + [size])
    case Try(i, now) =>
      if i >= |p.waiting| then p
      else
        var (c, ok) := Take(p.bucket, p.waiting[i], now);
        if ok then Pool(c, Drop(p.waiting, i), p.stats.(bytesSent := p.stats.bytesSent + p.waiting[i], packetsSent := p.stats.packetsSent + 1))
        else p.(bucket := c)
    case Cancel(i) =>
      if i >= |p.waiting| then p
      else p.(waiting := Drop(p.waiting, i),
              stats := p.stats.(bytesDropped := p.stats.bytesDropped + p.waiting[i], packetsDropped := p.stats.packetsDropped + 1))
  }

  function RunEvents(p: Pool, es: seq<Event>): Pool
    decreases |es|
  {
    if es == [] then p else RunEvents(Next(p, es[0]), es[1..])
  }

  // The attempts are in order and none is before t.
  predicate Ordered(t: real, es: seq<Event>)
    decreases |es|
  {
    es == [] || (if es[0].Try? then t <= es[0].now && Ordered(es[0].now, es[1..]) else Ordered(t, es[1..]))
  }

  function Sum(sizes: seq<nat>): nat { if sizes == [] then 0 else sizes[0] + Sum(sizes[1..]) }

  function Begun(es: seq<Event>): nat {
    if es == [] then 0 else (if es[0].Begin? then es[0].size else 0) + Begun(es[1..])
  }

  lemma {:induction false} SumAppend(a: seq<nat>, b: seq<nat>)
    ensures Sum(a + b) == Sum(a) + Sum(b)
  {
    if a == [] {
      assert a + b == b;
    } else {
      assert (a + b)[1..] == a[1..] + b;
      SumAppend(a[1..], b);
    }
  }

  lemma {:induction false} SumDrop(sizes: seq<nat>, i: nat)
    requires i < |sizes|
    ensures Sum(sizes) == sizes[i] + Sum(Drop(sizes, i))
  {
    assert sizes == sizes[..i] + ([sizes[i]] + sizes[i + 1..]);
    SumAppend(sizes[..i], [sizes[i]] + sizes[i + 1..]);
    assert ([sizes[i]] + sizes[i + 1..])[1..] == sizes[i + 1..];
    SumAppend(sizes[..i], sizes[i + 1..]);
  }

  // Everything begun so far: sent, dropped or waiting.
  function Account(p: Pool): int { p.stats.bytesSent + p.stats.bytesDropped + Sum(p.waiting) }

  lemma NextAccount(p: Pool, e: Event)
    ensures Account(Next(p, e)) == Account(p) + (if e.Begin? then e.size else 0)
  {
    match e
    case Begin(size) => SumAppend(p.waiting, [size]);
    case Try(i, _) => if i < |p.waiting| { SumDrop(p.waiting, i); }
    case Cancel(i) => if i < |p.waiting| { SumDrop(p.waiting, i); }
  }

  lemma NextWithin(p: Pool, e: Event)
    requires Valid(p.bucket) && (e.Try? ==> p.bucket.last <= e.now)
    ensures Within(p.bucket, Next(p, e).bucket, Next(p, e).stats.bytesSent - p.stats.bytesSent)
    ensures e.Try? ==> Next(p, e).bucket.last <= e.now
    ensures !e.Try? ==> Next(p, e).bucket == p.bucket
  {
    EarningAdds(p.bucket.rate, 0.0, 0.0);
    if e.Try? && e.i < |p.waiting| {
      TakeBound(p.bucket, p.waiting[e.i], e.now);
    }
  }

  lemma {:induction false} OrderedEarlier(t: real, u: real, es: seq<Event>)
    requires Ordered(u, es) && t <= u
    ensures Ordered(t, es)
    decreases |es|
  {
    if es != [] && !es[0].Try? {
      OrderedEarlier(t, u, es[1..]);
    }
  }

  lemma {:induction false} EventsFromHere(p: Pool, es: seq<Event>)
    requires Valid(p.bucket) && Ordered(p.bucket.last, es)
    ensures Within(p.bucket, RunEvents(p, es).bucket, RunEvents(p, es).stats.bytesSent - p.stats.bytesSent)
    ensures Account(RunEvents(p, es)) == Account(p) + Begun(es)
    decreases |es|
  {
    if es == [] {
      EarningAdds(p.bucket.rate, 0.0, 0.0);
    } else {
      var q := Next(p, es[0]);
      NextWithin(p, es[0]);
      NextAccount(p, es[0]);
      if es[0].Try? {
        OrderedEarlier(q.bucket.last, es[0].now, es[1..]);
      }
      EventsFromHere(q, es[1..]);
      var r := RunEvents(q, es[1..]);
      WithinAdds(p.bucket, q.bucket, r.bucket, q.stats.bytesSent - p.stats.bytesSent, r.stats.bytesSent - q.stats.bytesSent);
    }
  }

  lemma RefilledTry(p: Pool, i: nat, now: real)
    requires i < |p.waiting| && p.bucket.tokens <= p.bucket.capacity
    ensures Next(p.(bucket := Refill(p.bucket, now)), Try(i, now)) == Next(p, Try(i, now))
  {
    var r := Refill(p.bucket, now);
    EarningAdds(r.rate, 0.0, 0.0);
    assert Refill(r, now) == r;
  }

  lemma {:induction false} ConcurrentSent(p: Pool, es: seq<Event>, r: Pool)
    requires Valid(p.bucket) && Ordered(p.bucket.last, es) && es != [] && es[0].Try? && es[0].i < |p.waiting| && r == RunEvents(p, es)
    ensures Valid(r.bucket) && Account(r) == Account(p) + Begun(es)
    ensures (r.stats.bytesSent - p.stats.bytesSent) as real <= p.bucket.capacity as real + Earning(p.bucket.rate, r.bucket.last - es[0].now)
  {
    var start := es[0].now;
    var full := Refill(p.bucket, start);
    var q := p.(bucket := full);
    RefilledTry(p, es[0].i, start);
    TakeBound(p.bucket, 0, start);
    EventsFromHere(p, es);
    EventsFromHere(q, es);
    assert RunEvents(q, es) == r;
    WithinCapacity(full, r.bucket, r.stats.bytesSent - p.stats.bytesSent, p.bucket, start);
  }

  /** Any number of Sends at once, their attempts interleaved in any way: from any attempt on, the bytes sent
      are at most the burst plus the rate times the time since; and all bytes begun are sent, dropped or
      still waiting. */
  lemma {:induction false} ConcurrentBound(p: Pool, es: seq<Event>, r: Pool, time: real)
    requires Valid(p.bucket) && Ordered(p.bucket.last, es) && es != [] && es[0].Try? && es[0].i < |p.waiting|
    requires r == RunEvents(p, es) && time == r.bucket.last - es[0].now
    ensures Valid(r.bucket) && Account(r) == Account(p) + Begun(es)
    ensures (r.stats.bytesSent - p.stats.bytesSent) as real <= p.bucket.capacity as real + time * p.bucket.rate as real
  {
    ConcurrentSent(p, es, r);
    Plainly(r.stats.bytesSent - p.stats.bytesSent, p.bucket.capacity, p.bucket.rate, time, r.bucket.last - es[0].now);
  }

  // The packets that get their tokens in the events, and those given up; each with its bytes.
  function Outcomes(p: Pool, es: seq<Event>): Stats
    decreases |es|
  {
    if es == [] then Stats(0, 0, 0, 0)
    else
      var rest := Outcomes(Next(p, es[0]), es[1..]);
      if es[0].Try? && es[0].i < |p.waiting| && Take(p.bucket, p.waiting[es[0].i], es[0].now).1 then
        Stats(rest.bytesSent + p.waiting[es[0].i], rest.bytesDropped, rest.packetsSent + 1, rest.packetsDropped)
      else if es[0].Cancel? && es[0].i < |p.waiting| then
        Stats(rest.bytesSent, rest.bytesDropped + p.waiting[es[0].i], rest.packetsSent, rest.packetsDropped + 1)
      else rest
  }

  function Begins(es: seq<Event>): nat {
    if es == [] then 0 else (if es[0].Begin? then 1 else 0) + Begins(es[1..])
  }

  /** Senders at the same time: counted as sent are exactly the packets that got their tokens, as dropped those given up,
      and every packet begun is one, the other, or still waiting. */
  lemma {:induction false} EventsCounted(p: Pool, es: seq<Event>)
    ensures var r, o := RunEvents(p, es), Outcomes(p, es);
            && r.stats == Stats(p.stats.bytesSent + o.bytesSent, p.stats.bytesDropped + o.bytesDropped,
                                p.stats.packetsSent + o.packetsSent, p.stats.packetsDropped + o.packetsDropped)
            && o.packetsSent + o.packetsDropped + |r.waiting| == |p.waiting| + Begins(es)
    decreases |es|
  {
    if es != [] {
      EventsCounted(Next(p, es[0]), es[1..]);
    }
  }

  // ---------- when waiting ends ----------

  // The k-th of attempts made every `gap` seconds from `start`.
  function Every(start: real, gap: real, k: nat): seq<real>
    decreases k
  {
    if k == 0 then [] else [start] + Every(start + gap, gap, k - 1)
  }

  // What one gap adds, each time anew: the fraction is lost.
  function Gain(b: Bucket, gap: real): int { Trunc(Earning(b.rate, gap)) }

  lemma SteadyTake(b: Bucket, n: nat, gap: real)
    requires Valid(b) && gap >= 0.0
    ensures Gain(b, gap) >= 0
    ensures var (c, ok) := Take(b, n, b.last + gap);
            && (ok <==> n <= Min(b.capacity, b.tokens + Gain(b, gap)))
            && (!ok ==> c == b.(tokens := Min(b.capacity, b.tokens + Gain(b, gap)), last := b.last + gap) && Valid(c))
  {
    assert b.last + gap - b.last == gap;
    EarningPositive(b.rate, gap);
  }

  function Poll(b: Bucket, n: nat, gap: real, k: nat): bool { Wait(b, n, Every(b.last + gap, gap, k)).1 }

  lemma PollNext(b: Bucket, n: nat, gap: real, k: nat)
    requires k > 0
    ensures var (c, ok) := Take(b, n, b.last + gap);
            Poll(b, n, gap, k) == (ok || Poll(c, n, gap, k - 1))
  {
    var polls := Every(b.last + gap, gap, k);
    assert polls[0] == b.last + gap && polls[1..] == Every(b.last + gap + gap, gap, k - 1);
    assert Take(b, n, b.last + gap).0.last == b.last + gap;
  }

  // k polls bring what k gains bring, up to the capacity.
  lemma {:induction false} PollSteady(b: Bucket, n: nat, gap: real, k: nat, g: int)
    requires Valid(b) && gap >= 0.0 && n > b.tokens && g == Gain(b, gap)
    ensures Poll(b, n, gap, k) <==> n <= b.capacity && n <= b.tokens + Multiple(k, g)
    decreases k
  {
    SteadyTake(b, n, gap);
    MultiplePositive(k, g);
    if k > 0 {
      PollNext(b, n, gap, k);
      var (c, ok) := Take(b, n, b.last + gap);
      MultiplePositive(k - 1, g);
      if !ok {
        PollSteady(c, n, gap, k - 1, g);
      }
    }
  }

  function Multiple(k: nat, g: int): int { if k == 0 then 0 else g + Multiple(k - 1, g) }

  lemma {:induction false} MultiplePositive(k: nat, g: int)
    requires g >= 0
    ensures Multiple(k, g) >= 0 && (g >= 1 ==> Multiple(k, g) >= k) && (g == 0 ==> Multiple(k, g) == 0)
  {
    if k > 0 {
      MultiplePositive(k - 1, g);
    }
  }

  /** A caller waiting for more than is there and polling at a fixed gap gets through, sooner or later,
      exactly when it asks for no more than the capacity and one gap alone earns a whole token. A slower
      rate than that starves it, however long it waits. */
  lemma {:induction false} WaitEndsIff(b: Bucket, n: nat, gap: real)
    requires Valid(b) && gap >= 0.0 && n > b.tokens
    ensures (exists k: nat :: Poll(b, n, gap, k)) <==> n <= b.capacity && gap * b.rate as real >= 1.0
  {
    var g := Gain(b, gap);
    SteadyTake(b, n, gap);
    forall k: nat ensures Poll(b, n, gap, k) ==> n <= b.capacity && g >= 1 {
      PollSteady(b, n, gap, k, g);
      MultiplePositive(k, g);
    }
    MultiplePositive(n, g);
    PollSteady(b, n, gap, n, g);
    GainPositive(b, gap);
  }

  lemma GainPositive(b: Bucket, gap: real)
    requires Valid(b) && gap >= 0.0
    ensures Gain(b, gap) >= 1 <==> Earning(b.rate, gap) >= 1.0
  {
    EarningPositive(b.rate, gap);
  }
}
