/** Traffic after the handshake: two finished sessions with cross-matching keys, joined by two wires that
    deliver in order, used in any interleaving. */
module NoiseStream {
  import opened Bytes
  import opened Options
  import opened Noise

  /** One direction: what is on the wire, what was given to Encrypt, and what Decrypt handed back. */
  datatype Wire = Wire(onWire: seq<bytes>, sent: seq<bytes>, got: seq<Option<bytes>>)
  datatype Link = Link(a: Session, b: Session, ab: Wire, ba: Wire)

  datatype Event = Send(fromA: bool, plaintext: bytes) | Deliver(toA: bool)

  function Put(c: Suite, s: Session, w: Wire, p: bytes): (Session, Wire) {
    var (s1, out) := Encrypt(c, s, p);
    (s1, if out.None? then w else w.(onWire := w.onWire + [out.value], sent := w.sent + [p]))
  }

  function Get(c: Suite, s: Session, w: Wire): (Session, Wire) {
    if w.onWire == [] then (s, w)
    else
      var (s1, out) := Decrypt(c, s, w.onWire[0]);
      (s1, w.(onWire := w.onWire[1..], got := w.got + [out]))
  }

  function Next(c: Suite, l: Link, e: Event): Link {
    match e
    case Send(true, p) => var (a, ab) := Put(c, l.a, l.ab, p); l.(a := a, ab := ab)
    case Send(false, p) => var (b, ba) := Put(c, l.b, l.ba, p); l.(b := b, ba := ba)
    case Deliver(true) => var (a, ba) := Get(c, l.a, l.ba); l.(a := a, ba := ba)
    case Deliver(false) => var (b, ab) := Get(c, l.b, l.ab); l.(b := b, ab := ab)
  }

  function Traffic(c: Suite, l: Link, events: seq<Event>): Link
    decreases |events|
  {
    if events == [] then l else Traffic(c, Next(c, l, events[0]), events[1..])
  }

  /** The nonce of the k-th message after one sealed under `count`. */
  function Nonce(count: nat, k: nat): nat { (count + k) % CounterRange }

  // The receiver has read exactly what was sent, up to the messages still on the wire.
  ghost predicate Intact(c: Suite, key: Key, sendCount: nat, recvCount: nat, w: Wire) {
    && recvCount < CounterRange && sendCount == Nonce(recvCount, |w.onWire|)
    && |w.sent| == |w.got| + |w.onWire|
    && (forall k :: 0 <= k < |w.got| ==> w.got[k] == Some(w.sent[k]))
    && (forall k :: 0 <= k < |w.onWire| ==> w.onWire[k] == c.seal(key, Nonce(recvCount, k), w.sent[|w.got| + k]))
  }

  ghost predicate LinkInv(c: Suite, l: Link) {
    && l.a.complete && l.b.complete && l.a.sendKey == l.b.recvKey && l.b.sendKey == l.a.recvKey
    && Intact(c, l.a.sendKey, l.a.sendCount, l.b.recvCount, l.ab)
    && Intact(c, l.b.sendKey, l.b.sendCount, l.a.recvCount, l.ba)
  }

  lemma NonceStep(count: nat, k: nat)
    ensures Nonce(Nonce(count, 1), k) == Nonce(count, k + 1)
    ensures Nonce(Nonce(count, k), 1) == Nonce(count, k + 1)
  {
    WrapOnce(count + 1, k);
    WrapOnce(count + k, 1);
  }

  lemma WrapOnce(a: nat, b: nat)
    ensures (a % CounterRange + b) % CounterRange == (a + b) % CounterRange
  {
    var x, q := a % CounterRange + b, a / CounterRange;
    assert a + b == x + q * CounterRange;
    assert (x + q * CounterRange) / CounterRange == x / CounterRange + q;
  }

  lemma PutIntact(c: Suite, s: Session, w: Wire, p: bytes, recvCount: nat)
    requires s.complete && Intact(c, s.sendKey, s.sendCount, recvCount, w)
    ensures var (s1, w1) := Put(c, s, w, p);
            && s1 == s.(sendCount := s1.sendCount) && w1.sent == w.sent + [p]
            && Intact(c, s.sendKey, s1.sendCount, recvCount, w1)
  {
    var (s1, w1) := Put(c, s, w, p);
    NonceStep(recvCount, |w.onWire|);
    forall k | 0 <= k < |w1.onWire|
      ensures w1.onWire[k] == c.seal(s.sendKey, Nonce(recvCount, k), w1.sent[|w1.got| + k])
    {
      if k < |w.onWire| {
        assert w1.onWire[k] == w.onWire[k];
      }
    }
  }

  lemma GetIntact(c: Suite, s: Session, w: Wire, sendCount: nat)
    requires Ideal(c) && s.complete && Intact(c, s.recvKey, sendCount, s.recvCount, w)
    ensures var (s1, w1) := Get(c, s, w);
            && s1 == s.(recvCount := s1.recvCount)
            && Intact(c, s.recvKey, sendCount, s1.recvCount, w1)
  {
    if w.onWire != [] {
      var (s1, w1) := Get(c, s, w);
      var p := w.sent[|w.got|];
      assert w.onWire[0] == c.seal(s.recvKey, s.recvCount, p);
      assert c.unseal(s.recvKey, s.recvCount, c.seal(s.recvKey, s.recvCount, p)) == Some(p);
      NonceStep(s.recvCount, |w1.onWire|);
      forall k | 0 <= k < |w1.onWire|
        ensures w1.onWire[k] == c.seal(s.recvKey, Nonce(s1.recvCount, k), w1.sent[|w1.got| + k])
      {
        NonceStep(s.recvCount, k);
        assert w1.onWire[k] == w.onWire[k + 1];
      }
    }
  }

  lemma NextKeepsInv(c: Suite, l: Link, e: Event)
    requires Ideal(c) && LinkInv(c, l)
    ensures LinkInv(c, Next(c, l, e))
  {
    match e
    case Send(true, p) => PutIntact(c, l.a, l.ab, p, l.b.recvCount);
    case Send(false, p) => PutIntact(c, l.b, l.ba, p, l.a.recvCount);
    case Deliver(true) => GetIntact(c, l.a, l.ba, l.b.sendCount);
    case Deliver(false) => GetIntact(c, l.b, l.ab, l.a.sendCount);
  }

  lemma {:induction false} TrafficKeepsInv(c: Suite, l: Link, events: seq<Event>)
    requires Ideal(c) && LinkInv(c, l)
    ensures LinkInv(c, Traffic(c, l, events))
    decreases |events|
  {
    if events != [] {
      NextKeepsInv(c, l, events[0]);
      TrafficKeepsInv(c, Next(c, l, events[0]), events[1..]);
    }
  }

  const NoTraffic := Wire([], [], [])

  /** From any faithful handshake on, in every interleaving of sends and in-order deliveries in both
      directions, each delivery hands over exactly the plaintext sent at that position: none is lost,
      rejected or altered. */
  lemma StreamsDecrypt(c: Suite, i: Session, r: Session, events: seq<Event>)
    requires Ideal(c) && Fresh(c, i, true) && Fresh(c, r, false) && SecretsExist(c, i, r)
    ensures var (i2, r2, _) := Handshake(c, i, r);
            var l := Traffic(c, Link(i2, r2, NoTraffic, NoTraffic), events);
            forall w, k | w in {l.ab, l.ba} && 0 <= k < |w.got| :: |w.got| <= |w.sent| && w.got[k] == Some(w.sent[k])
  {
    HandshakeAgrees(c, i, r);
    var (i2, r2, _) := Handshake(c, i, r);
    TrafficKeepsInv(c, Link(i2, r2, NoTraffic, NoTraffic), events);
  }

  /** The sealed forms of a list of plaintexts, one Encrypt after another. */
  function Sealed(c: Suite, s: Session, plaintexts: seq<bytes>): seq<Option<bytes>>
    decreases |plaintexts|
  {
    if plaintexts == [] then [] else [Encrypt(c, s, plaintexts[0]).1] + Sealed(c, Encrypt(c, s, plaintexts[0]).0, plaintexts[1..])
  }

  lemma {:induction false} SealedAt(c: Suite, s: Session, plaintexts: seq<bytes>, k: nat)
    requires s.complete && s.sendCount < CounterRange && k < |plaintexts|
    ensures |Sealed(c, s, plaintexts)| == |plaintexts|
    ensures Sealed(c, s, plaintexts)[k] == Some(c.seal(s.sendKey, Nonce(s.sendCount, k), plaintexts[k]))
    decreases |plaintexts|
  {
    var s1 := Encrypt(c, s, plaintexts[0]).0;
    if k > 0 {
      SealedAt(c, s1, plaintexts[1..], k - 1);
      NonceStep(s.sendCount, k - 1);
    } else if |plaintexts| > 1 {
      SealedAt(c, s1, plaintexts[1..], 0);
    }
  }

  lemma SameNonce(n: nat, j: nat, k: nat)
    requires j < k
    ensures Nonce(n, j) == Nonce(n, k) <==> (k - j) % CounterRange == 0
  {
    assert (n + k) - (n + j) == k - j;
  }

  /** Encryption never refuses: the overflow guard cannot fire. So two messages of a stream share a nonce
      exactly when they are a multiple of 2^64 apart, and none do within 2^64 messages. */
  lemma NonceReusedIff(c: Suite, s: Session, plaintexts: seq<bytes>, j: nat, k: nat)
    requires s.complete && s.sendCount < CounterRange && j < k < |plaintexts|
    ensures |Sealed(c, s, plaintexts)| == |plaintexts|
    ensures Sealed(c, s, plaintexts)[j] == Some(c.seal(s.sendKey, Nonce(s.sendCount, j), plaintexts[j]))
    ensures Sealed(c, s, plaintexts)[k] == Some(c.seal(s.sendKey, Nonce(s.sendCount, k), plaintexts[k]))
    ensures Nonce(s.sendCount, j) == Nonce(s.sendCount, k) <==> (k - j) % CounterRange == 0
  {
    SealedAt(c, s, plaintexts, j);
    SealedAt(c, s, plaintexts, k);
    SameNonce(s.sendCount, j, k);
  }

  // ---------- keys and nonces ----------

  /** A message sealed: by which side, under which key and nonce. */
  datatype Use = Use(byA: bool, key: Key, nonce: nat)

  function UseOf(l: Link, byA: bool): Use {
    if byA then Use(true, l.a.sendKey, l.a.sendCount) else Use(false, l.b.sendKey, l.b.sendCount)
  }

  /** Every message sealed in the traffic, in order. */
  function Uses(c: Suite, l: Link, events: seq<Event>): seq<Use>
    decreases |events|
  {
    if events == [] then []
    else (if events[0].Send? then [UseOf(l, events[0].fromA)] else []) + Uses(c, Next(c, l, events[0]), events[1..])
  }

  // What a use stands for: the ciphertext that goes on the wire.
  lemma UseSeals(c: Suite, l: Link, byA: bool, p: bytes)
    requires l.a.complete && l.b.complete && l.a.sendCount < CounterRange && l.b.sendCount < CounterRange
    ensures var u, l1 := UseOf(l, byA), Next(c, l, Send(byA, p));
            if byA then l1.ab.onWire == l.ab.onWire + [c.seal(u.key, u.nonce, p)] else l1.ba.onWire == l.ba.onWire + [c.seal(u.key, u.nonce, p)]
  {
  }

  // How many of the first n uses are by this side.
  function By(us: seq<Use>, n: nat, byA: bool): nat
    requires n <= |us|
  {
    if n == 0 then 0 else By(us, n - 1, byA) + if us[n - 1].byA == byA then 1 else 0
  }

  lemma {:induction false} ByFirst(u: Use, us: seq<Use>, n: nat, byA: bool)
    requires n <= |us|
    ensures By([u] + us, n + 1, byA) == By(us, n, byA) + if u.byA == byA then 1 else 0
  {
    if n > 0 {
      ByFirst(u, us, n - 1, byA);
    } else {
      assert By([u] + us, 0, byA) == 0;
    }
  }

  // The counters a link starts from, and its keys.
  ghost predicate Sending(l: Link, keyA: Key, countA: nat, keyB: Key, countB: nat) {
    && l.a.complete && l.b.complete && l.a.sendKey == keyA && l.b.sendKey == keyB && l.a.sendCount == countA && l.b.sendCount == countB
    && countA < CounterRange && countB < CounterRange
  }

  lemma NextSending(c: Suite, l: Link, e: Event, keyA: Key, countA: nat, keyB: Key, countB: nat)
    requires Sending(l, keyA, countA, keyB, countB)
    ensures Sending(Next(c, l, e), keyA, if e.Send? && e.fromA then Nonce(countA, 1) else countA,
                    keyB, if e.Send? && !e.fromA then Nonce(countB, 1) else countB)
  {
  }

  // The k-th use: its side's key, and its side's count so far as nonce.
  ghost predicate Numbered(us: seq<Use>, k: nat, keyA: Key, countA: nat, keyB: Key, countB: nat)
    requires k < |us|
  {
    us[k].key == (if us[k].byA then keyA else keyB)
    && us[k].nonce == Nonce(if us[k].byA then countA else countB, By(us, k, us[k].byA))
  }

  // One use more in front: its side has counted once.
  lemma NumberedCons(u: Use, rest: seq<Use>, us: seq<Use>, k: nat, keyA: Key, countA: nat, keyB: Key, countB: nat, countA': nat, countB': nat)
    requires us == [u] + rest && k < |rest| && Numbered(rest, k, keyA, countA', keyB, countB')
    requires countA < CounterRange && countB < CounterRange
    requires countA' == (if u.byA then Nonce(countA, 1) else countA) && countB' == if u.byA then countB else Nonce(countB, 1)
    ensures Numbered(us, k + 1, keyA, countA, keyB, countB)
  {
    var byA := rest[k].byA;
    ByFirst(u, rest, k, byA);
    NonceMore(if byA then countA else countB, if u.byA == byA then 1 else 0, By(rest, k, byA));
  }

  lemma NonceMore(count: nat, j: nat, k: nat)
    ensures Nonce(Nonce(count, j), k) == Nonce(count, j + k)
  {
    WrapOnce(count + j, k);
  }

  ghost predicate AllNumbered(us: seq<Use>, keyA: Key, countA: nat, keyB: Key, countB: nat) {
    forall k :: 0 <= k < |us| ==> Numbered(us, k, keyA, countA, keyB, countB)
  }

  lemma AllCons(u: Use, rest: seq<Use>, us: seq<Use>, keyA: Key, countA: nat, keyB: Key, countB: nat)
    requires us == [u] + rest && countA < CounterRange && countB < CounterRange
    requires u == if u.byA then Use(true, keyA, countA) else Use(false, keyB, countB)
    requires AllNumbered(rest, keyA, if u.byA then Nonce(countA, 1) else countA, keyB, if u.byA then countB else Nonce(countB, 1))
    ensures AllNumbered(us, keyA, countA, keyB, countB)
  {
    forall k | 0 <= k < |us| ensures Numbered(us, k, keyA, countA, keyB, countB) {
      if k > 0 {
        NumberedCons(u, rest, us, k - 1, keyA, countA, keyB, countB, if u.byA then Nonce(countA, 1) else countA, if u.byA then countB else Nonce(countB, 1));
      }
    }
  }

  lemma {:induction false} UsesNumbered(c: Suite, l: Link, events: seq<Event>, keyA: Key, countA: nat, keyB: Key, countB: nat)
    requires Sending(l, keyA, countA, keyB, countB)
    ensures AllNumbered(Uses(c, l, events), keyA, countA, keyB, countB)
    decreases |events|
  {
    if events != [] {
      var e, l1 := events[0], Next(c, l, events[0]);
      var countA', countB' := if e.Send? && e.fromA then Nonce(countA, 1) else countA, if e.Send? && !e.fromA then Nonce(countB, 1) else countB;
      NextSending(c, l, e, keyA, countA, keyB, countB);
      UsesNumbered(c, l1, events[1..], keyA, countA', keyB, countB');
      UsesStep(c, l, l1, e, events, Uses(c, l1, events[1..]), keyA, countA, keyB, countB);
    }
  }

  lemma UsesStep(c: Suite, l: Link, l1: Link, e: Event, events: seq<Event>, rest: seq<Use>, keyA: Key, countA: nat, keyB: Key, countB: nat)
    requires events != [] && e == events[0] && l1 == Next(c, l, e) && rest == Uses(c, l1, events[1..])
    requires Sending(l, keyA, countA, keyB, countB)
    requires AllNumbered(rest, keyA, if e.Send? && e.fromA then Nonce(countA, 1) else countA, keyB, if e.Send? && !e.fromA then Nonce(countB, 1) else countB)
    ensures AllNumbered(Uses(c, l, events), keyA, countA, keyB, countB)
  {
    var us := Uses(c, l, events);
    if e.Send? {
      AllCons(UseOf(l, e.fromA), rest, us, keyA, countA, keyB, countB);
    } else {
      assert us == rest;
    }
  }

  lemma {:induction false} ByGrows(us: seq<Use>, j: nat, k: nat, byA: bool)
    requires j < k <= |us| && us[j].byA == byA
    ensures By(us, j, byA) < By(us, k, byA) <= By(us, j, byA) + (k - j)
    decreases k
  {
    if k > j + 1 {
      ByGrows(us, j, k - 1, byA);
    }
  }

  /** The counts are a multiple of 2^64 apart. */
  predicate Wrapped(x: int, y: int) { (y - x) % 0x1_0000_0000_0000_0000 == 0 }

  lemma UsedOnce(us: seq<Use>, j: nat, k: nat, keyA: Key, keyB: Key, x: nat, y: nat)
    requires j < k < |us| && keyA != keyB && x == By(us, j, us[k].byA) && y == By(us, k, us[k].byA)
    requires us[j].key == (if us[j].byA then keyA else keyB) && us[k].key == (if us[k].byA then keyA else keyB)
    requires us[j].byA == us[k].byA ==> us[j].nonce == Nonce(0, x) && us[k].nonce == Nonce(0, y)
    ensures us[j].key == us[k].key && us[j].nonce == us[k].nonce <==> us[j].byA == us[k].byA && Wrapped(x, y)
  {
    if us[j].byA == us[k].byA {
      ByGrows(us, j, k, us[k].byA);
      SameNonce(0, x, y);
    }
  }

  // The two ends of a faithful handshake, before any traffic.
  ghost function Joined(c: Suite, i: Session, r: Session): Link {
    Link(Handshake(c, i, r).0, Handshake(c, i, r).1, NoTraffic, NoTraffic)
  }

  lemma JoinedSending(c: Suite, i: Session, r: Session, l: Link, halves: (Key, Key))
    requires Ideal(c) && Fresh(c, i, true) && Fresh(c, r, false) && SecretsExist(c, i, r)
    requires l == Joined(c, i, r) && halves == c.hkdf([], Chain3(c, i, r), [1])
    ensures l.a.sendKey == halves.0 && l.b.sendKey == halves.1 && Sending(l, l.a.sendKey, 0, l.b.sendKey, 0)
  {
    HandshakeAgrees(c, i, r);
  }

  /** The whole traffic after any faithful handshake. If the two halves of the last chaining key differ, two messages
      are sealed under one key and nonce only when one side sent both, a multiple of 2^64 messages apart. */
  lemma KeyAndNonceOnce(c: Suite, i: Session, r: Session, l: Link, halves: (Key, Key), events: seq<Event>, us: seq<Use>, j: nat, k: nat)
    requires Ideal(c) && Fresh(c, i, true) && Fresh(c, r, false) && SecretsExist(c, i, r)
    requires l == Joined(c, i, r) && halves == c.hkdf([], Chain3(c, i, r), [1]) && halves.0 != halves.1
    requires us == Uses(c, l, events) && j < k < |us|
    ensures us[j].key == us[k].key && us[j].nonce == us[k].nonce
            <==> us[j].byA == us[k].byA && Wrapped(By(us, j, us[k].byA), By(us, k, us[k].byA))
  {
    JoinedSending(c, i, r, l, halves);
    UsesNumbered(c, l, events, halves.0, 0, halves.1, 0);
    assert Numbered(us, j, halves.0, 0, halves.1, 0) && Numbered(us, k, halves.0, 0, halves.1, 0);
    UsedOnce(us, j, k, halves.0, halves.1, By(us, j, us[k].byA), By(us, k, us[k].byA));
  }

  /** If they do not differ, the first message each way already shares both. */
  lemma OneKeyBothWays(c: Suite, i: Session, r: Session, l: Link, halves: (Key, Key), p: bytes, q: bytes)
    requires Ideal(c) && Fresh(c, i, true) && Fresh(c, r, false) && SecretsExist(c, i, r)
    requires l == Joined(c, i, r) && halves == c.hkdf([], Chain3(c, i, r), [1]) && halves.0 == halves.1
    ensures SharedFirst(c, l, p, q)
  {
    JoinedSending(c, i, r, l, halves);
    FirstUses(c, l, p, q);
  }

  ghost predicate SharedFirst(c: Suite, l: Link, p: bytes, q: bytes) {
    var us := Uses(c, l, [Send(true, p), Send(false, q)]);
    |us| == 2 && us[0].key == us[1].key && us[0].nonce == us[1].nonce
  }

  lemma FirstUses(c: Suite, l: Link, p: bytes, q: bytes)
    requires Sending(l, l.a.sendKey, 0, l.b.sendKey, 0) && l.a.sendKey == l.b.sendKey
    ensures SharedFirst(c, l, p, q)
  {
    var es := [Send(true, p), Send(false, q)];
    var l1 := Next(c, l, es[0]);
    NextSending(c, l, es[0], l.a.sendKey, 0, l.b.sendKey, 0);
    assert es[1..] == [es[1]] && es[1..][1..] == [];
    assert Uses(c, Next(c, l1, es[1]), []) == [];
    assert Uses(c, l1, [es[1]]) == [UseOf(l1, false)];
    assert Uses(c, l, es) == [UseOf(l, true)] + Uses(c, l1, es[1..]);
  }

  /** A message that does not open costs its receiver a nonce: the next one sealed in order is then opened under the
      nonce after its own. */
  lemma FailureCosts(c: Suite, s: Session, junk: bytes, m: bytes)
    requires s.complete && s.recvCount < CounterRange && |junk| >= Overhead && |m| >= Overhead
    requires c.unseal(s.recvKey, s.recvCount, junk) == None
    ensures var (s1, out) := Decrypt(c, s, junk);
            out == None && s1 == s.(recvCount := Nonce(s.recvCount, 1))
            && Decrypt(c, s1, m).1 == c.unseal(s.recvKey, Nonce(s.recvCount, 1), m)
  {
  }
}
