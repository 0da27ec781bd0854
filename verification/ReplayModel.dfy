/** The bounded replay cache of the proof-of-work validator, as a relation between states: which of several
    equally old entries is dropped is left to the map's iteration order. Times are integers. */
module ReplayModel {
  const Cap := 1024

  /** A challenge is known by its digest, which fixes its timestamp. */
  datatype Challenge = Challenge(digest: string, stamp: int)

  type Cache = map<Challenge, int>

  predicate Fresh(c: Challenge, now: int, window: int) { -window <= now - c.stamp <= window }

  predicate Replayed(seen: Cache, c: Challenge, now: int, window: int) { c in seen && now - seen[c] < window }

  /** What eviction may leave of a cache: it fits, what goes is no newer than anything that stays, and goes
      because it is older than the window or because the cache stays full. */
  ghost predicate Settled(full: Cache, now: int, window: int, seen: Cache) {
    && (forall k :: k in seen ==> k in full && seen[k] == full[k])
    && |seen| <= Cap && (|full| <= Cap ==> seen == full)
    && (forall k, j :: k in full && k !in seen && j in seen ==> full[k] <= full[j])
    && (forall k :: k in full && k !in seen ==> full[k] < now - window || |seen| == Cap)
  }

  // ---------- runs ----------

  /** The cache, and when each challenge was accepted. */
  datatype State = State(seen: Cache, times: map<Challenge, seq<int>>)
  datatype Attempt = Attempt(challenge: Challenge, works: bool, now: int)

  const Initial := State(map[], map[])

  predicate Accepted(s: State, a: Attempt, window: int) {
    a.works && Fresh(a.challenge, a.now, window) && !Replayed(s.seen, a.challenge, a.now, window)
  }

  function Times(s: State, c: Challenge): seq<int> { if c in s.times then s.times[c] else [] }

  ghost predicate Step(s: State, a: Attempt, window: int, s': State) {
    if Accepted(s, a, window) then
      && s'.times == s.times[a.challenge := Times(s, a.challenge) + [a.now]]
      && Settled(s.seen[a.challenge := a.now], a.now, window, s'.seen)
    else s' == s
  }

  ghost predicate StepAt(states: seq<State>, attempts: seq<Attempt>, window: int, i: nat)
    requires |states| == |attempts| + 1 && i < |attempts|
  {
    Step(states[i], attempts[i], window, states[i + 1])
  }

  ghost predicate Run(states: seq<State>, attempts: seq<Attempt>, window: int) {
    && |states| == |attempts| + 1 && states[0] == Initial
    && (forall i :: 0 <= i < |attempts| ==> StepAt(states, attempts, window, i))
    && (forall i, j :: 0 <= i <= j < |attempts| ==> attempts[i].now <= attempts[j].now)
  }

  // ---------- the invariant ----------

  function Last(s: State, c: Challenge): int
    requires c in s.times && s.times[c] != []
  {
    s.times[c][|s.times[c]| - 1]
  }

  // Every challenge in `times` was accepted, not after `clock`.
  ghost predicate Logged(s: State, clock: int) {
    forall c :: c in s.times ==> s.times[c] != [] && Last(s, c) <= clock
  }

  /** The other challenges accepted since c last was, and those accepted at that very time or since. */
  ghost function Newer(s: State, c: Challenge, clock: int): set<Challenge>
    requires Logged(s, clock) && c in s.times
  {
    set k | k in s.times && Last(s, k) > Last(s, c)
  }

  ghost function NotOlder(s: State, c: Challenge, clock: int): set<Challenge>
    requires Logged(s, clock) && c in s.times
  {
    set k | k in s.times && k != c && Last(s, k) >= Last(s, c)
  }

  // Forgotten only when too old or crowded out.
  ghost predicate Excused(s: State, c: Challenge, clock: int, window: int)
    requires Logged(s, clock) && c in s.times
  {
    Last(s, c) < clock - window || |NotOlder(s, c, clock)| >= Cap
  }

  ghost predicate Inv(s: State, clock: int, window: int) {
    && Logged(s, clock) && |s.seen| <= Cap
    && (forall k :: k in s.seen ==> k in s.times && s.seen[k] == Last(s, k))
    && (forall k, j :: k in s.seen && j in s.times && Last(s, j) > Last(s, k) ==> j in s.seen)
    && (forall k :: k in s.times && k !in s.seen ==> Excused(s, k, clock, window))
  }

  lemma {:induction false} SubsetSize<T>(a: set<T>, b: set<T>)
    requires a <= b
    ensures |a| <= |b|
    decreases |a|
  {
    if x :| x in a {
      SubsetSize(a - {x}, b - {x});
    }
  }

  lemma ClockAdvances(s: State, clock: int, now: int, window: int)
    requires Inv(s, clock, window) && clock <= now
    ensures Inv(s, now, window)
  {
    forall k | k in s.times && k !in s.seen ensures Excused(s, k, now, window) {
      assert Excused(s, k, clock, window);
      assert NotOlder(s, k, clock) == NotOlder(s, k, now);
    }
  }

  // A challenge forgotten before stays excused: others only move up.
  lemma StillExcused(s: State, a: Attempt, window: int, s': State, k: Challenge)
    requires Inv(s, a.now, window) && Accepted(s, a, window) && Step(s, a, window, s')
    requires k in s.times && k !in s.seen && k != a.challenge
    ensures Logged(s', a.now) && k in s'.times && Excused(s', k, a.now, window)
  {
    AcceptLogged(s, a, window, s');
    assert Excused(s, k, a.now, window);
    var before, after := NotOlder(s, k, a.now), NotOlder(s', k, a.now);
    forall j | j in before ensures j in after {
      assert Last(s', j) >= Last(s, j);
    }
    SubsetSize(before, after);
  }

  lemma AcceptLogged(s: State, a: Attempt, window: int, s': State)
    requires Logged(s, a.now) && Accepted(s, a, window) && Step(s, a, window, s')
    ensures Logged(s', a.now) && a.challenge in s'.times && Last(s', a.challenge) == a.now
    ensures forall k :: k in s.times && k != a.challenge ==> k in s'.times && Last(s', k) == Last(s, k)
    ensures forall k :: k in s'.times ==> k in s.times || k == a.challenge
  {
  }

  // A challenge dropped now is stale, or leaves a full cache of others no older.
  lemma DroppedExcused(s: State, a: Attempt, window: int, s': State, k: Challenge)
    requires Inv(s, a.now, window) && Accepted(s, a, window) && Step(s, a, window, s')
    requires k in s.seen || k == a.challenge
    requires k !in s'.seen
    ensures Logged(s', a.now) && k in s'.times && Excused(s', k, a.now, window)
  {
    AcceptLogged(s, a, window, s');
    var full := s.seen[a.challenge := a.now];
    assert k in full && full[k] == Last(s', k);
    if full[k] >= a.now - window {
      assert |s'.seen| == Cap;
      var others := NotOlder(s', k, a.now);
      forall j | j in s'.seen.Keys ensures j in others {
        assert full[k] <= full[j] == Last(s', j);
      }
      SubsetSize(s'.seen.Keys, others);
    }
  }

  lemma AcceptKeepsInv(s: State, a: Attempt, window: int, s': State)
    requires Inv(s, a.now, window) && Accepted(s, a, window) && Step(s, a, window, s')
    ensures Inv(s', a.now, window)
  {
    AcceptLogged(s, a, window, s');
    var full := s.seen[a.challenge := a.now];
    forall k, j | k in s'.seen && j in s'.times && Last(s', j) > Last(s', k) ensures j in s'.seen {
      assert j in full;
    }
    forall k | k in s'.times && k !in s'.seen ensures Excused(s', k, a.now, window) {
      if k in s.seen || k == a.challenge {
        DroppedExcused(s, a, window, s', k);
      } else {
        StillExcused(s, a, window, s', k);
      }
    }
  }

  lemma StepKeepsInv(s: State, clock: int, a: Attempt, window: int, s': State)
    requires Inv(s, clock, window) && clock <= a.now && Step(s, a, window, s')
    ensures Inv(s', a.now, window)
  {
    ClockAdvances(s, clock, a.now, window);
    if Accepted(s, a, window) {
      AcceptKeepsInv(s, a, window, s');
    }
  }

  // The time of the last attempt before state i.
  function Clock(attempts: seq<Attempt>, i: nat): int
    requires attempts != [] && i <= |attempts|
  {
    if i == 0 then attempts[0].now else attempts[i - 1].now
  }

  lemma InitialInv(clock: int, window: int)
    ensures Inv(Initial, clock, window)
  {
  }

  lemma {:induction false} RunKeepsInv(states: seq<State>, attempts: seq<Attempt>, window: int, i: nat)
    requires Run(states, attempts, window) && attempts != [] && i <= |attempts|
    ensures Inv(states[i], Clock(attempts, i), window)
    decreases i
  {
    if i == 0 {
      InitialInv(Clock(attempts, 0), window);
    } else {
      RunKeepsInv(states, attempts, window, i - 1);
      assert StepAt(states, attempts, window, i - 1);
      StepKeepsInv(states[i - 1], Clock(attempts, i - 1), attempts[i - 1], window, states[i]);
    }
  }

  // ---------- what the cache guarantees ----------

  /** Resubmitting a challenge within a window of its last acceptance, in any reachable state: it is refused
      if fewer than 1024 others were accepted at that time or since, and goes through again if 1024 others
      were accepted since. */
  lemma ReplayDecided(s: State, clock: int, c: Challenge, now: int, window: int)
    requires Inv(s, clock, window) && clock <= now && c in s.times && now - Last(s, c) < window
    ensures |NotOlder(s, c, clock)| < 1024 ==> Replayed(s.seen, c, now, window)
    ensures |Newer(s, c, clock)| >= 1024 ==> !Replayed(s.seen, c, now, window)
  {
    if c !in s.seen {
      assert Excused(s, c, clock, window);
    } else {
      var newer := Newer(s, c, clock);
      SubsetSize(newer + {c}, s.seen.Keys);
      assert |newer + {c}| == |newer| + 1;
    }
  }

  /** A challenge never accepted, or last accepted a window ago or longer, is no replay in any reachable state: it is
      accepted if and only if the work is good and its time is at most a window away, before or after. */
  lemma {:induction false} AcceptedWhenLate(s: State, clock: int, a: Attempt, window: int)
    requires Inv(s, clock, window)
    requires a.challenge !in s.times || a.now - Last(s, a.challenge) >= window
    ensures Accepted(s, a, window) <==> a.works && a.now - a.challenge.stamp <= window && a.challenge.stamp - a.now <= window
  {
    if a.challenge in s.seen {
      assert s.seen[a.challenge] == Last(s, a.challenge);
    }
  }

  // No two challenges were accepted at the same time.
  ghost predicate Distinct(s: State, clock: int)
    requires Logged(s, clock)
  {
    forall j, k :: j in s.times && k in s.times && Last(s, j) == Last(s, k) ==> j == k
  }

  /** When the clock tells acceptances apart, exactly: refused if and only if fewer than 1024 others came since. */
  lemma ReplayRefusedIff(s: State, clock: int, c: Challenge, now: int, window: int)
    requires Inv(s, clock, window) && clock <= now && c in s.times && now - Last(s, c) < window
    requires Distinct(s, clock)
    ensures Replayed(s.seen, c, now, window) <==> |Newer(s, c, clock)| < 1024
  {
    ReplayDecided(s, clock, c, now, window);
    assert Newer(s, c, clock) == NotOlder(s, c, clock);
  }

  // ---------- acceptances of one challenge ----------

  /** More than 1024 different challenges accepted in the window that ends now. */
  ghost predicate Flooded(s: State, now: int, window: int)
    requires Logged(s, now)
  {
    |set k | k in s.times && Last(s, k) > now - window| > Cap
  }

  /** A challenge accepted again within a window means a flood. */
  lemma EarlyReplayFloods(s: State, a: Attempt, window: int, s': State)
    requires Inv(s, a.now, window) && Accepted(s, a, window) && Step(s, a, window, s') && window > 0
    requires a.challenge in s.times && a.now - Last(s, a.challenge) < window
    ensures Logged(s', a.now) && Flooded(s', a.now, window)
  {
    var c := a.challenge;
    ReplayDecided(s, a.now, c, a.now, window);
    AcceptLogged(s, a, window, s');
    var others := NotOlder(s, c, a.now);
    var recent := set k | k in s'.times && Last(s', k) > a.now - window;
    forall k | k in others + {c} ensures k in recent {
    }
    SubsetSize(others + {c}, recent);
    assert |others + {c}| == |others| + 1;
  }

  // A window apart, and around the challenge's timestamp.
  ghost predicate Spaced(c: Challenge, times: seq<int>, window: int) {
    && (forall i :: 0 <= i < |times| ==> -window <= times[i] - c.stamp <= window)
    && (forall i, j :: 0 <= i < j < |times| ==> times[j] - times[i] >= window)
  }

  ghost predicate AllSpaced(s: State, window: int) {
    forall c :: c in s.times ==> Spaced(c, s.times[c], window)
  }

  lemma NoEarlyReplay(s: State, a: Attempt, window: int, s': State)
    requires Inv(s, a.now, window) && Accepted(s, a, window) && Step(s, a, window, s') && window > 0
    requires a.challenge in s.times && Logged(s', a.now) && !Flooded(s', a.now, window)
    ensures a.now - Last(s, a.challenge) >= window
  {
    if a.now - Last(s, a.challenge) < window {
      EarlyReplayFloods(s, a, window, s');
    }
  }

  lemma AppendSpaced(c: Challenge, times: seq<int>, now: int, window: int)
    requires Spaced(c, times, window) && window > 0 && Fresh(c, now, window) && (times != [] ==> now - times[|times| - 1] >= window)
    ensures Spaced(c, times + [now], window)
  {
  }

  lemma AcceptSpaced(s: State, a: Attempt, window: int, s': State)
    requires window > 0 && AllSpaced(s, window) && Fresh(a.challenge, a.now, window)
    requires s'.times == s.times[a.challenge := Times(s, a.challenge) + [a.now]]
    requires a.challenge in s.times && s.times[a.challenge] != [] ==> a.now - Last(s, a.challenge) >= window
    ensures AllSpaced(s', window)
  {
    AppendSpaced(a.challenge, Times(s, a.challenge), a.now, window);
  }

  // Not more than 1024 challenges accepted in the window that ends with attempt i.
  ghost predicate CalmAt(states: seq<State>, attempts: seq<Attempt>, window: int, i: nat)
    requires |states| == |attempts| + 1 && i < |attempts|
  {
    Logged(states[i + 1], attempts[i].now) ==> !Flooded(states[i + 1], attempts[i].now, window)
  }

  ghost predicate NeverFlooded(states: seq<State>, attempts: seq<Attempt>, window: int)
    requires Run(states, attempts, window)
  {
    forall i :: 0 <= i < |attempts| ==> CalmAt(states, attempts, window, i)
  }

  lemma {:induction false} RunSpaced(states: seq<State>, attempts: seq<Attempt>, window: int, i: nat)
    requires Run(states, attempts, window) && window > 0 && i <= |attempts| && NeverFlooded(states, attempts, window)
    ensures AllSpaced(states[i], window)
    decreases i
  {
    if i > 0 {
      RunSpaced(states, attempts, window, i - 1);
      AcceptedApart(states, attempts, window, i - 1);
      assert StepAt(states, attempts, window, i - 1);
      if Accepted(states[i - 1], attempts[i - 1], window) {
        AcceptSpaced(states[i - 1], attempts[i - 1], window, states[i]);
      }
    }
  }

  lemma AcceptedApart(states: seq<State>, attempts: seq<Attempt>, window: int, i: nat)
    requires Run(states, attempts, window) && window > 0 && i < |attempts| && NeverFlooded(states, attempts, window)
    ensures var s, a := states[i], attempts[i];
            Accepted(s, a, window) && a.challenge in s.times ==> s.times[a.challenge] != [] && a.now - Last(s, a.challenge) >= window
  {
    var s, a := states[i], attempts[i];
    RunKeepsInv(states, attempts, window, i);
    RunKeepsInv(states, attempts, window, i + 1);
    ClockAdvances(s, Clock(attempts, i), a.now, window);
    assert StepAt(states, attempts, window, i) && CalmAt(states, attempts, window, i);
    if Accepted(s, a, window) && a.challenge in s.times {
      NoEarlyReplay(s, a, window, states[i + 1]);
    }
  }

  /** In every run with a clock that never goes back and at most 1024 challenges accepted in any window: the
      cache holds at most 1024, acceptances of one challenge are a window apart, and there are at most three. */
  lemma AcceptedAtMostThrice(states: seq<State>, attempts: seq<Attempt>, window: int, i: nat, c: Challenge)
    requires Run(states, attempts, window) && window > 0 && i <= |attempts| && NeverFlooded(states, attempts, window)
    ensures |states[i].seen| <= 1024
    ensures Spaced(c, Times(states[i], c), window) && |Times(states[i], c)| <= 3
  {
    RunSpaced(states, attempts, window, i);
    if attempts != [] {
      RunKeepsInv(states, attempts, window, i);
    }
    AtMostThree(c, Times(states[i], c), window);
  }

  lemma {:induction false} FarApart(c: Challenge, times: seq<int>, window: int, n: nat)
    requires Spaced(c, times, window) && n < |times|
    ensures times[n] - times[0] >= n * window
  {
    if n > 0 {
      FarApart(c, times, window, n - 1);
    }
  }

  lemma AtMostThree(c: Challenge, times: seq<int>, window: int)
    requires Spaced(c, times, window) && window > 0
    ensures |times| <= 3
  {
    if times != [] {
      var n := |times| - 1;
      FarApart(c, times, window, n);
      assert n * window <= 2 * window;
    }
  }
}
