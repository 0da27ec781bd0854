/** The hybrid handshake: a Kyber-1024 encapsulation carried by the first two Noise XX messages and folded
    into the session keys. On values; the key encapsulation is a parameter with its ideal law. */
module Hybrid {
  import opened Bytes
  import opened Options
  import opened Noise
  import NoiseStream

  const PublicKeySize := 1568
  const SecretKeySize := 3168
  const CiphertextSize := 1568

  datatype Kem = Kem(public: bytes -> bytes, encap: (bytes, Key) -> (bytes, Key), decap: (bytes, bytes) -> Key)

  /** Decapsulation recovers what was encapsulated to the matching public key. */
  ghost predicate IdealKem(k: Kem) {
    && (forall sk :: |sk| == SecretKeySize ==> |k.public(sk)| == PublicKeySize)
    && (forall pk, seed :: |k.encap(pk, seed).0| == CiphertextSize)
    && (forall sk, seed :: |sk| == SecretKeySize ==> k.decap(k.encap(k.public(sk), seed).0, sk) == k.encap(k.public(sk), seed).1)
  }

  datatype State = State(noise: Session, kyberPub: bytes, kyberSec: bytes, kyberSS: bytes, peerKyberPub: bytes, hasKyberSS: bool)

  /** One call. A nil message differs from an empty one; `seed` is None when the random source fails. */
  function Write(c: Suite, k: Kem, s: State, peerMsg: Option<bytes>, seed: Option<Key>): (State, Reply) {
    var msg := if peerMsg.None? then [] else peerMsg.value;
    if s.noise.complete then (s, Reply(None, true))
    else if s.noise.initiator && peerMsg.None? then
      var (n, r) := Noise.Write(c, s.noise, []);
      (s.(noise := n), if r.Error? then r else r.(toSend := Some(s.kyberPub + Sent(r))))
    else if s.noise.initiator && |msg| > 0 then
      if |msg| < CiphertextSize || |s.kyberSec| != SecretKeySize then (s, Error)
      else
        var (n, r) := Noise.Write(c, s.noise, msg[CiphertextSize..]);
        (s.(noise := n, kyberSS := k.decap(msg[..CiphertextSize], s.kyberSec), hasKyberSS := true), r)
    else if !s.noise.initiator && s.noise.step < 1 then
      if |msg| < PublicKeySize then (s, Error)
      else
        var peer := msg[..PublicKeySize];
        var (n, r) := Noise.Write(c, s.noise, msg[PublicKeySize..]);
        if r.Error? || seed.None? then (s.(noise := n), Error)
        else
          var (ct, ss) := k.encap(peer, seed.value);
          (s.(noise := n, kyberSS := ss, hasKyberSS := true, peerKyberPub := peer), Reply(Some(ct + Sent(r)), false))
    else
      var (n, r) := Noise.Write(c, s.noise, msg);
      (s.(noise := n), r)
  }

  // "LocalWEB-v2-session"
  const SessionInfo: bytes := [76, 111, 99, 97, 108, 87, 69, 66, 45, 118, 50, 45, 115, 101, 115, 115, 105, 111, 110]

  function Combined(c: Suite, noiseKey: Key, kyberSS: bytes): Key { c.hkdf(noiseKey, kyberSS, SessionInfo).0 }
  function SessionKey(c: Suite, s: State): Key { Combined(c, s.noise.sendKey, s.kyberSS) }
  function RecvSessionKey(c: Suite, s: State): Key { Combined(c, s.noise.recvKey, s.kyberSS) }

  /** Traffic is sealed and opened by the Noise session, under its keys alone. */
  function Encrypt(c: Suite, s: State, plaintext: bytes): (State, Option<bytes>) {
    if !s.noise.complete then (s, None)
    else var (n, out) := Noise.Encrypt(c, s.noise, plaintext); (s.(noise := n), out)
  }

  function Decrypt(c: Suite, s: State, ciphertext: bytes): (State, Option<bytes>) {
    if !s.noise.complete then (s, None)
    else var (n, out) := Noise.Decrypt(c, s.noise, ciphertext); (s.(noise := n), out)
  }

  ghost predicate Fresh(c: Suite, k: Kem, s: State, initiator: bool) {
    && Noise.Fresh(c, s.noise, initiator)
    && |s.kyberSec| == SecretKeySize && s.kyberPub == k.public(s.kyberSec)
    && s.kyberSS == [] && s.peerKyberPub == [] && !s.hasKyberSS
  }

  // ---------- faithful runs ----------

  ghost function Handshake(c: Suite, k: Kem, i: State, r: State, seed: Key): (State, State, seq<Reply>)
  {
    var (i1, m1) := Write(c, k, i, None, None);
    var (r1, m2) := Write(c, k, r, Some(Sent(m1)), Some(seed));
    var (i2, m3) := Write(c, k, i1, Some(Sent(m2)), None);
    var (r2, m4) := Write(c, k, r1, Some(Sent(m3)), None);
    (i2, r2, [m1, m2, m3, m4])
  }

  // One hybrid step over the Noise step inside it, for each of the four calls.

  lemma FirstCall(c: Suite, k: Kem, i: State)
    requires Fresh(c, k, i, true)
    ensures var (n, r) := Noise.Write(c, i.noise, []);
            Write(c, k, i, None, None) == (i.(noise := n), Reply(Some(i.kyberPub + i.noise.ephemeralPublic), false))
  {
    FirstMessage(c, i.noise);
  }

  lemma SecondCall(c: Suite, k: Kem, r: State, pk: bytes, e: bytes, seed: Key)
    requires Fresh(c, k, r, false) && |pk| == PublicKeySize
    ensures var (n, reply) := Noise.Write(c, r.noise, e);
            var (ct, ss) := k.encap(pk, seed);
            var (r1, m2) := Write(c, k, r, Some(pk + e), Some(seed));
            if reply.Error? then m2 == Error
            else
              && m2 == Reply(Some(ct + Sent(reply)), false)
              && r1 == r.(noise := n, kyberSS := ss, hasKyberSS := true, peerKyberPub := pk)
  {
    assert (pk + e)[..PublicKeySize] == pk && (pk + e)[PublicKeySize..] == e;
  }

  lemma ThirdCall(c: Suite, k: Kem, s: State, ct: bytes, m: bytes)
    requires s.noise.initiator && !s.noise.complete && |s.kyberSec| == SecretKeySize && |ct| == CiphertextSize
    ensures var (n, r) := Noise.Write(c, s.noise, m);
            Write(c, k, s, Some(ct + m), None) == (s.(noise := n, kyberSS := k.decap(ct, s.kyberSec), hasKyberSS := true), r)
  {
    assert (ct + m)[..CiphertextSize] == ct && (ct + m)[CiphertextSize..] == m;
  }

  /** Both ends know each other, hold one Kyber secret, and derive cross-matching session keys from it. */
  ghost predicate HybridAgreed(c: Suite, i: State, r: State, i2: State, r2: State) {
    && Agreed(i.noise, r.noise, i2.noise, r2.noise)
    && i2.hasKyberSS && r2.hasKyberSS && i2.kyberSS == r2.kyberSS && r2.peerKyberPub == i.kyberPub
    && SessionKey(c, i2) == RecvSessionKey(c, r2) && RecvSessionKey(c, i2) == SessionKey(c, r2)
  }

  /** A faithful run meets an error exactly when a key exchange does; otherwise it ends in agreement, on the
      encapsulated secret, after three messages of exactly the sizes the transport reads. */
  lemma HybridAgrees(c: Suite, k: Kem, i: State, r: State, seed: Key)
    requires Ideal(c) && IdealKem(k) && Fresh(c, k, i, true) && Fresh(c, k, r, false)
    ensures var (i2, r2, m) := Handshake(c, k, i, r, seed);
            && (Error !in m <==> SecretsExist(c, i.noise, r.noise))
            && (SecretsExist(c, i.noise, r.noise) ==>
                  && HybridAgreed(c, i, r, i2, r2)
                  && r2.kyberSS == k.encap(i.kyberPub, seed).1
                  && SessionKey(c, i2) == c.hkdf(i2.noise.sendKey, r2.kyberSS, SessionInfo).0
                  && RecvSessionKey(c, i2) == c.hkdf(i2.noise.recvKey, r2.kyberSS, SessionInfo).0
                  && |Sent(m[0])| == 1600 && |Sent(m[1])| == 1648 && |Sent(m[2])| == 48
                  && m[2] == Reply(Some(Sent(m[2])), true) && m[3] == Reply(None, true))
  {
    HandshakeAgrees(c, i.noise, r.noise);
    var e := i.noise.ephemeralPublic;
    var (i1, m1) := Write(c, k, i, None, None);
    var (r1, m2) := Write(c, k, r, Some(Sent(m1)), Some(seed));
    FirstCall(c, k, i);
    FirstMessage(c, i.noise);
    SecondCall(c, k, r, i.kyberPub, e, seed);
    SecondMessage(c, i.noise, r.noise);
    var m := Handshake(c, k, i, r, seed).2;
    if EE(c, i.noise, r.noise).None? || ES(c, i.noise, r.noise).None? {
      assert m[1] == Error;
    } else {
      var (ct, ss) := k.encap(i.kyberPub, seed);
      ThirdCall(c, k, i1, ct, Message2(c, i.noise, r.noise));
      ThirdMessage(c, i.noise, r.noise, i1.noise);
      if SE(c, i.noise, r.noise).None? {
        assert m[2] == Error;
      } else {
        assert k.decap(ct, i.kyberSec) == ss;
      }
    }
  }

  /** If the derivation does not collide on what the two states put into it, their session keys are equal if and only
      if they hold the same Noise key and the same Kyber secret. */
  lemma SessionKeysTell(c: Suite, s: State, t: State)
    requires c.hkdf(s.noise.sendKey, s.kyberSS, SessionInfo).0 == c.hkdf(t.noise.sendKey, t.kyberSS, SessionInfo).0
             ==> s.noise.sendKey == t.noise.sendKey && s.kyberSS == t.kyberSS
    requires c.hkdf(s.noise.recvKey, s.kyberSS, SessionInfo).0 == c.hkdf(t.noise.recvKey, t.kyberSS, SessionInfo).0
             ==> s.noise.recvKey == t.noise.recvKey && s.kyberSS == t.kyberSS
    ensures SessionKey(c, s) == SessionKey(c, t) <==> s.noise.sendKey == t.noise.sendKey && s.kyberSS == t.kyberSS
    ensures RecvSessionKey(c, s) == RecvSessionKey(c, t) <==> s.noise.recvKey == t.noise.recvKey && s.kyberSS == t.kyberSS
  {
  }

  // ---------- any inbound messages ----------

  datatype Call = Call(msg: Option<bytes>, seed: Option<Key>)

  function Run(c: Suite, k: Kem, s: State, calls: seq<Call>): State
    decreases |calls|
  {
    if calls == [] then s else Run(c, k, Write(c, k, s, calls[0].msg, calls[0].seed).0, calls[1..])
  }

  /** Whether the random source worked in the call that took the Noise session from step 0 to step 2; None
      when no call did. */
  function OpeningSeeded(c: Suite, k: Kem, s: State, calls: seq<Call>): Option<bool>
    decreases |calls|
  {
    if calls == [] then None
    else
      var t := Write(c, k, s, calls[0].msg, calls[0].seed).0;
      if s.noise.step == 0 && t.noise.step == 2 then Some(calls[0].seed.Some?) else OpeningSeeded(c, k, t, calls[1..])
  }

  ghost predicate Guarded(c: Suite, s: State) {
    && Sound(c, s.noise)
    && |s.kyberSS| == (if s.hasKyberSS then 32 else 0)
    && (s.noise.initiator && s.noise.complete ==> s.hasKyberSS)
    && (!s.noise.initiator ==> s.noise.step <= 2 && (s.noise.complete ==> s.noise.step == 2))
    && (!s.noise.initiator && s.noise.step < 2 ==> !s.hasKyberSS)
  }

  // Any message that the Noise session of a call may see.
  lemma NoiseSound(c: Suite, s: State, msg: Option<bytes>)
    requires Sound(c, s.noise)
    ensures var m := if msg.None? then [] else msg.value;
            && Sound(c, Noise.Write(c, s.noise, m).0) && Sound(c, Noise.Write(c, s.noise, []).0)
            && (|m| >= CiphertextSize ==> Sound(c, Noise.Write(c, s.noise, m[CiphertextSize..]).0))
  {
    var m := if msg.None? then [] else msg.value;
    StepSound(c, s.noise, Shake(m));
    StepSound(c, s.noise, Shake([]));
    if |m| >= CiphertextSize {
      StepSound(c, s.noise, Shake(m[CiphertextSize..]));
    }
  }

  // The steps a Noise session takes.
  lemma NoiseSteps(c: Suite, n: Session, m: bytes)
    requires !n.complete
    ensures var (t, r) := Noise.Write(c, n, m);
            && t.initiator == n.initiator
            && (n.initiator && t.complete ==> |m| >= 32)
            && (!n.initiator && n.step == 0 ==> t.step <= 2 && !t.complete && (t.step == 2 <==> !r.Error?))
            && (!n.initiator && 0 < n.step <= 2 ==> t.step == n.step && (t.complete ==> n.step == 2))
  {
  }

  lemma KemSizes(k: Kem, s: State, m: bytes, seed: Option<Key>)
    requires |m| >= CiphertextSize
    ensures |k.decap(m[..CiphertextSize], s.kyberSec)| == 32
    ensures seed.Some? ==> |k.encap(m[..PublicKeySize], seed.value).1| == 32
  {
    var recovered: Key := k.decap(m[..CiphertextSize], s.kyberSec);
    if seed.Some? {
      var shared: Key := k.encap(m[..PublicKeySize], seed.value).1;
    }
  }

  lemma InitiatorGuarded(c: Suite, k: Kem, s: State, call: Call)
    requires Guarded(c, s) && s.noise.initiator
    ensures Guarded(c, Write(c, k, s, call.msg, call.seed).0) && Write(c, k, s, call.msg, call.seed).0.noise.initiator
    ensures s.hasKyberSS ==> Write(c, k, s, call.msg, call.seed).0.hasKyberSS
  {
    var m := if call.msg.None? then [] else call.msg.value;
    NoiseSound(c, s, call.msg);
    if !s.noise.complete {
      NoiseSteps(c, s.noise, []);
      NoiseSteps(c, s.noise, m);
      if |m| >= CiphertextSize {
        NoiseSteps(c, s.noise, m[CiphertextSize..]);
        KemSizes(k, s, m, call.seed);
      }
    }
  }

  // The responder's secret comes with its step from 0 to 2, or not at all.
  lemma ResponderGuarded(c: Suite, k: Kem, s: State, call: Call)
    requires Guarded(c, s) && !s.noise.initiator
    ensures var t := Write(c, k, s, call.msg, call.seed).0;
            && Guarded(c, t) && !t.noise.initiator
            && (s.noise.step == 0 && t.noise.step == 2 ==> (t.hasKyberSS <==> call.seed.Some?))
            && (s.noise.step == 2 ==> t.noise.step == 2 && t.hasKyberSS == s.hasKyberSS)
            && (s.noise.step == 1 ==> t.noise.step == 1)
  {
    var m := if call.msg.None? then [] else call.msg.value;
    NoiseSound(c, s, call.msg);
    if !s.noise.complete {
      NoiseSteps(c, s.noise, m);
      if |m| >= CiphertextSize {
        NoiseSteps(c, s.noise, m[CiphertextSize..]);
        KemSizes(k, s, m, call.seed);
      }
    }
  }

  lemma {:induction false} InitiatorRun(c: Suite, k: Kem, s: State, calls: seq<Call>)
    requires Guarded(c, s) && s.noise.initiator
    ensures Guarded(c, Run(c, k, s, calls)) && Run(c, k, s, calls).noise.initiator
    ensures s.noise.complete ==> Run(c, k, s, calls) == s
    decreases |calls|
  {
    if calls != [] {
      InitiatorGuarded(c, k, s, calls[0]);
      InitiatorRun(c, k, Write(c, k, s, calls[0].msg, calls[0].seed).0, calls[1..]);
    }
  }

  lemma {:induction false} ResponderRun(c: Suite, k: Kem, s: State, calls: seq<Call>)
    requires Guarded(c, s) && !s.noise.initiator
    ensures var t := Run(c, k, s, calls);
            && Guarded(c, t) && !t.noise.initiator && (s.noise.complete ==> t == s)
            && (s.noise.step == 2 ==> t.noise.step == 2 && t.hasKyberSS == s.hasKyberSS)
            && (s.noise.step == 1 ==> t.noise.step == 1)
            && (s.noise.step == 0 && t.noise.step == 2 ==>
                  OpeningSeeded(c, k, s, calls).Some? && (t.hasKyberSS <==> OpeningSeeded(c, k, s, calls).value))
    decreases |calls|
  {
    if calls != [] {
      ResponderGuarded(c, k, s, calls[0]);
      ResponderRun(c, k, Write(c, k, s, calls[0].msg, calls[0].seed).0, calls[1..]);
    }
  }

  /** For any messages and whatever the random source does, from a fresh state on: keys only with completion,
      and then the two halves of the chaining key; a finished initiator holds a Kyber secret; a finished
      responder holds one if and only if the random source worked in the call that opened its handshake; and
      nothing changes a finished session. */
  lemma EveryRunGuarded(c: Suite, k: Kem, s: State, initiator: bool, calls: seq<Call>, more: seq<Call>)
    requires Fresh(c, k, s, initiator)
    ensures var t := Run(c, k, s, calls);
            && Sound(c, t.noise) && |t.kyberSS| == (if t.hasKyberSS then 32 else 0)
            && (t.noise.complete ==> Run(c, k, t, more) == t)
            && (t.noise.complete && initiator ==> t.hasKyberSS)
            && (t.noise.complete && !initiator ==>
                  OpeningSeeded(c, k, s, calls).Some? && (t.hasKyberSS <==> OpeningSeeded(c, k, s, calls).value))
  {
    var t := Run(c, k, s, calls);
    if initiator {
      InitiatorRun(c, k, s, calls);
      InitiatorRun(c, k, t, more);
    } else {
      ResponderRun(c, k, s, calls);
      ResponderRun(c, k, t, more);
    }
  }

  /** A responder whose random source fails in its first call, and which is then sent the third message of the
      Noise run it is in, finishes without a Kyber secret. */
  lemma UnseededFinish(c: Suite, k: Kem, i: Session, r: State, pk: bytes)
    requires Ideal(c) && KeyPairs(c, i) && Fresh(c, k, r, false) && SecretsExist(c, i, r.noise) && |pk| == PublicKeySize
    ensures var t := Run(c, k, r, [Call(Some(pk + i.ephemeralPublic), None), Call(Some(Message3(c, i, r.noise)), None)]);
            t.noise.complete && !t.hasKyberSS && t.kyberSS == []
  {
    var e := i.ephemeralPublic;
    assert (pk + e)[..PublicKeySize] == pk && (pk + e)[PublicKeySize..] == e;
    SecondMessage(c, i, r.noise);
    var n := Noise.Write(c, r.noise, e).0;
    var r1 := r.(noise := n);
    assert Write(c, k, r, Some(pk + e), None).0 == r1;
    LastMessage(c, i, r.noise, n);
    var calls := [Call(Some(pk + e), None), Call(Some(Message3(c, i, r.noise)), None)];
    assert calls[1..] == [calls[1]] && calls[1..][1..] == [];
    assert Run(c, k, r, calls) == Run(c, k, r1, calls[1..]);
  }

  // ---------- what the Kyber secret is used for ----------

  // Apart from the random source, the key pair and the secret, the two call sequences and states are alike.
  ghost predicate SameCalls(calls: seq<Call>, calls': seq<Call>) {
    |calls| == |calls'| && forall j :: 0 <= j < |calls| ==> calls[j].msg == calls'[j].msg
  }

  lemma WriteIgnoresKem(c: Suite, k: Kem, k': Kem, s: State, s': State, msg: Option<bytes>, seed: Option<Key>, seed': Option<Key>)
    requires s.noise == s'.noise && |s.kyberSec| == |s'.kyberSec|
    ensures var t, t' := Write(c, k, s, msg, seed).0, Write(c, k', s', msg, seed').0;
            t.noise == t'.noise && |t.kyberSec| == |t'.kyberSec|
  {
  }

  lemma {:induction false} RunIgnoresKem(c: Suite, k: Kem, k': Kem, s: State, s': State, calls: seq<Call>, calls': seq<Call>)
    requires s.noise == s'.noise && |s.kyberSec| == |s'.kyberSec| && SameCalls(calls, calls')
    ensures Run(c, k, s, calls).noise == Run(c, k', s', calls').noise
    decreases |calls|
  {
    if calls != [] {
      WriteIgnoresKem(c, k, k', s, s', calls[0].msg, calls[0].seed, calls'[0].seed);
      RunIgnoresKem(c, k, k', Write(c, k, s, calls[0].msg, calls[0].seed).0, Write(c, k', s', calls'[0].msg, calls'[0].seed).0,
                    calls[1..], calls'[1..]);
    }
  }

  // The sealed forms of a list of plaintexts, one Encrypt after another.
  function Sealed(c: Suite, s: State, plaintexts: seq<bytes>): seq<Option<bytes>>
    decreases |plaintexts|
  {
    if plaintexts == [] then [] else [Encrypt(c, s, plaintexts[0]).1] + Sealed(c, Encrypt(c, s, plaintexts[0]).0, plaintexts[1..])
  }

  lemma {:induction false} SealedByNoise(c: Suite, s: State, plaintexts: seq<bytes>)
    ensures Sealed(c, s, plaintexts) == NoiseStream.Sealed(c, s.noise, plaintexts)
    decreases |plaintexts|
  {
    if plaintexts != [] {
      SealedByNoise(c, Encrypt(c, s, plaintexts[0]).0, plaintexts[1..]);
    }
  }

  /** For any messages, any two key encapsulations, key pairs and secrets, and whatever the random sources do:
      the two runs leave the same Noise session, and everything sealed afterwards is the same. */
  lemma TrafficIgnoresKem(c: Suite, k: Kem, k': Kem, s: State, s': State, calls: seq<Call>, calls': seq<Call>, plaintexts: seq<bytes>)
    requires s.noise == s'.noise && |s.kyberSec| == |s'.kyberSec| && SameCalls(calls, calls')
    ensures Sealed(c, Run(c, k, s, calls), plaintexts) == Sealed(c, Run(c, k', s', calls'), plaintexts)
  {
    RunIgnoresKem(c, k, k', s, s', calls, calls');
    SealedByNoise(c, Run(c, k, s, calls), plaintexts);
    SealedByNoise(c, Run(c, k', s', calls'), plaintexts);
  }

  /** A faithful hybrid run leaves the Noise sessions of the plain Noise run, whatever is encapsulated: what
      either side seals is what it would seal without Kyber. */
  lemma HybridTrafficIsNoise(c: Suite, k: Kem, i: State, r: State, seed: Key, plaintexts: seq<bytes>)
    requires IdealKem(k) && Fresh(c, k, i, true) && Fresh(c, k, r, false)
    ensures var (i2, r2, _) := Handshake(c, k, i, r, seed);
            var (n, n', _) := Noise.Handshake(c, i.noise, r.noise);
            && i2.noise == n && r2.noise == n'
            && Sealed(c, i2, plaintexts) == NoiseStream.Sealed(c, n, plaintexts)
            && Sealed(c, r2, plaintexts) == NoiseStream.Sealed(c, n', plaintexts)
  {
    var (i1, m1) := Write(c, k, i, None, None);
    var (r1, m2) := Write(c, k, r, Some(Sent(m1)), Some(seed));
    var (i2, m3) := Write(c, k, i1, Some(Sent(m2)), None);
    var (r2, m4) := Write(c, k, r1, Some(Sent(m3)), None);
    FirstCall(c, k, i);
    FirstMessage(c, i.noise);
    var e := i.noise.ephemeralPublic;
    var (q1, w2) := Noise.Write(c, r.noise, e);
    var ct := k.encap(i.kyberPub, seed).0;
    SecondCall(c, k, r, i.kyberPub, e, seed);
    NoiseSteps(c, r.noise, e);
    if !w2.Error? {
      ThirdCall(c, k, i1, ct, Sent(w2));
    }
    SealedByNoise(c, i2, plaintexts);
    SealedByNoise(c, r2, plaintexts);
  }

  // The plaintexts of a list of ciphertexts, one Decrypt after another.
  function Opened(c: Suite, s: State, ciphertexts: seq<Option<bytes>>): seq<Option<bytes>>
    decreases |ciphertexts|
  {
    if ciphertexts == [] then []
    else
      var m := if ciphertexts[0].Some? then ciphertexts[0].value else [];
      [Decrypt(c, s, m).1] + Opened(c, Decrypt(c, s, m).0, ciphertexts[1..])
  }

  // What a sends, b can read next.
  ghost predicate Paired(a: State, b: State) {
    && a.noise.complete && b.noise.complete && a.noise.sendKey == b.noise.recvKey
    && a.noise.sendCount == b.noise.recvCount < CounterRange
  }

  lemma {:induction false} PairedOpens(c: Suite, a: State, b: State, plaintexts: seq<bytes>)
    requires Ideal(c) && Paired(a, b)
    ensures Opened(c, b, Sealed(c, a, plaintexts)) == seq(|plaintexts|, j requires 0 <= j < |plaintexts| => Some(plaintexts[j]))
    decreases |plaintexts|
  {
    if plaintexts != [] {
      var (a1, m) := Encrypt(c, a, plaintexts[0]);
      var (b1, p) := Decrypt(c, b, m.value);
      assert c.unseal(b.noise.recvKey, b.noise.recvCount, m.value) == Some(plaintexts[0]);
      PairedOpens(c, a1, b1, plaintexts[1..]);
      assert ([m] + Sealed(c, a1, plaintexts[1..]))[1..] == Sealed(c, a1, plaintexts[1..]);
    }
  }

  /** After a faithful hybrid run either side opens exactly what the other seals, message for message. */
  lemma {:induction false} HybridDelivers(c: Suite, k: Kem, i: State, r: State, seed: Key, i2: State, r2: State, plaintexts: seq<bytes>)
    requires Ideal(c) && IdealKem(k) && Fresh(c, k, i, true) && Fresh(c, k, r, false) && SecretsExist(c, i.noise, r.noise)
    requires i2 == Handshake(c, k, i, r, seed).0 && r2 == Handshake(c, k, i, r, seed).1
    ensures var all := seq(|plaintexts|, j requires 0 <= j < |plaintexts| => Some(plaintexts[j]));
            Opened(c, r2, Sealed(c, i2, plaintexts)) == all && Opened(c, i2, Sealed(c, r2, plaintexts)) == all
  {
    HybridAgrees(c, k, i, r, seed);
    PairedOpens(c, i2, r2, plaintexts);
    PairedOpens(c, r2, i2, plaintexts);
  }
}
