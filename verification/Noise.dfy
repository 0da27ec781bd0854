/** The Noise XX handshake (section 7.5 of the Noise Protocol Framework, revision 34) as the program runs
    it, on values. The primitives are parameters; their ideal laws are spelled out. */
module Noise {
  import opened Bytes
  import opened Options

  const ZeroKey: bytes := [0, 0, 0, 0, 0, 0, 0, 0, 0, 0, 0, 0, 0, 0, 0, 0,
                           0, 0, 0, 0, 0, 0, 0, 0, 0, 0, 0, 0, 0, 0, 0, 0]
  type Key = k: bytes | |k| == 32 witness ZeroKey

  /** X25519 public keys and shared secrets (an error on degenerate points), the hash, the first two
      32-byte blocks of HKDF(secret, salt, info), and the AEAD by key and nonce counter. */
  datatype Suite = Suite(
    public: Key -> Key,
    dh: (Key, Key) -> Option<Key>,
    hash: bytes -> Key,
    hkdf: (bytes, bytes, bytes) -> (Key, Key),
    seal: (Key, nat, bytes) -> bytes,
    unseal: (Key, nat, bytes) -> Option<bytes>)

  const Overhead := 16

  /** Diffie-Hellman commutes; opening undoes sealing and sealing adds the tag. */
  ghost predicate Ideal(c: Suite) {
    && (forall a: Key, b: Key :: c.dh(a, c.public(b)) == c.dh(b, c.public(a)))
    && (forall k: Key, n: nat, p: bytes :: c.unseal(k, n, c.seal(k, n, p)) == Some(p) && |c.seal(k, n, p)| == |p| + Overhead)
  }

  datatype Session = Session(
    initiator: bool,
    staticPublic: Key, staticPrivate: Key,
    ephemeralPublic: Key, ephemeralPrivate: Key,
    remotePublic: Key, remoteEphemeral: Key,
    h: Key, ck: Key, keyed: bool,
    sendKey: Key, recvKey: Key, sendCount: nat, recvCount: nat,
    step: nat, complete: bool)

  /** What a handshake call hands back. */
  datatype Reply = Error | Reply(toSend: Option<bytes>, complete: bool)

  // "Noise_XX_25519_XSalsa20Poly1305_SHA3-256"
  const ProtocolName: bytes := [78, 111, 105, 115, 101, 95, 88, 88, 95, 50, 53, 53, 49, 57, 95, 88, 83, 97, 108, 115,
                                97, 50, 48, 80, 111, 108, 121, 49, 51, 48, 53, 95, 83, 72, 65, 51, 45, 50, 53, 54]

  function New(c: Suite, initiator: bool, staticPublic: Key, staticPrivate: Key, ephemeralPublic: Key, ephemeralPrivate: Key): Session {
    var h := c.hash(ProtocolName);
    Session(initiator, staticPublic, staticPrivate, ephemeralPublic, ephemeralPrivate, ZeroKey, ZeroKey, h, h, false,
            ZeroKey, ZeroKey, 0, 0, 0, false)
  }

  // ---------- tokens ----------

  function MixHash(c: Suite, s: Session, data: bytes): Session {
    s.(h := c.hash(s.h + data))
  }

  function MixKey(c: Suite, s: Session, secret: Key): Session {
    s.(ck := c.hkdf(secret, s.ck, [1]).0, keyed := true)
  }

  function EncryptAndHash(c: Suite, s: Session, plaintext: bytes): (Session, bytes) {
    var out := if s.keyed then c.seal(s.ck, 0, plaintext) else plaintext;
    (MixHash(c, s, out), out)
  }

  function DecryptAndHash(c: Suite, s: Session, ciphertext: bytes): (Session, Option<bytes>) {
    var out := if s.keyed then c.unseal(s.ck, 0, ciphertext) else Some(ciphertext);
    if out.None? then (s, None) else (MixHash(c, s, ciphertext), out)
  }

  // The two transport keys of a chaining key, as the initiator sends and receives with them.
  function SplitKeys(c: Suite, ck: Key): (Key, Key) {
    c.hkdf([], ck, [1])
  }

  function Split(c: Suite, s: Session): Session {
    var (k1, k2) := SplitKeys(c, s.ck);
    if s.initiator then s.(sendKey := k1, recvKey := k2) else s.(sendKey := k2, recvKey := k1)
  }

  // ---------- messages ----------

  // The third message, once both of the peer's keys are known.
  function InitiatorReply(c: Suite, s: Session): (Session, Reply) {
    var es := c.dh(s.ephemeralPrivate, s.remotePublic);
    if es.None? then (s, Error)
    else
      var (s1, enc) := EncryptAndHash(c, MixKey(c, s, es.value), s.staticPublic);
      var se := c.dh(s1.staticPrivate, s1.remoteEphemeral);
      if se.None? then (s1, Error)
      else (Split(c, MixKey(c, s1, se.value)).(step := 3, complete := true), Reply(Some(enc), true))
  }

  function InitiatorWrite(c: Suite, s: Session, peerMsg: bytes): (Session, Reply) {
    if s.step == 0 then
      (MixHash(c, s, s.ephemeralPublic).(step := 1), Reply(Some(s.ephemeralPublic), false))
    else if s.step == 1 then
      if |peerMsg| < 32 then (s, Error)
      else
        var s1 := MixHash(c, s, peerMsg[..32]).(remoteEphemeral := peerMsg[..32]);
        var ee := c.dh(s1.ephemeralPrivate, s1.remoteEphemeral);
        if ee.None? then (s1, Error)
        else
          var s2 := MixKey(c, s1, ee.value);
          var (s3, rs) := DecryptAndHash(c, s2, peerMsg[32..]);
          if rs.None? || |rs.value| != 32 then (s3, Error)
          else
            InitiatorReply(c, s3.(remotePublic := rs.value))
    else (s, Error)
  }

  function ResponderWrite(c: Suite, s: Session, peerMsg: bytes): (Session, Reply) {
    if s.step == 0 then
      if |peerMsg| != 32 then (s, Error)
      else
        var s1 := MixHash(c, s, peerMsg).(remoteEphemeral := peerMsg, step := 1);
        var ee := c.dh(s1.ephemeralPrivate, s1.remoteEphemeral);
        if ee.None? then (s1, Error)
        else
          var (s2, enc) := EncryptAndHash(c, MixKey(c, s1, ee.value), s1.staticPublic);
          var es := c.dh(s2.staticPrivate, s2.remoteEphemeral);
          if es.None? then (s2, Error)
          else (MixKey(c, s2, es.value).(step := 2), Reply(Some(s2.ephemeralPublic + enc), false))
    else if s.step == 2 then
      var (s1, rs) := DecryptAndHash(c, s, peerMsg);
      if rs.None? || |rs.value| != 32 then (s1, Error)
      else
        var s2 := s1.(remotePublic := rs.value);
        var se := c.dh(s2.ephemeralPrivate, s2.remotePublic);
        if se.None? then (s2, Error)
        else (Split(c, MixKey(c, s2, se.value)).(complete := true), Reply(None, true))
    else (s, Error)
  }

  /** One call: nil and the empty message are the same to it. */
  function Write(c: Suite, s: Session, peerMsg: bytes): (Session, Reply) {
    if s.complete then (s, Reply(None, true))
    else if s.initiator then InitiatorWrite(c, s, peerMsg)
    else ResponderWrite(c, s, peerMsg)
  }

  // ---------- agreement ----------

  // A keypair and an ephemeral keypair, as generated.
  ghost predicate KeyPairs(c: Suite, s: Session) {
    s.staticPublic == c.public(s.staticPrivate) && s.ephemeralPublic == c.public(s.ephemeralPrivate)
  }

  ghost predicate Fresh(c: Suite, s: Session, initiator: bool) {
    && s == New(c, initiator, s.staticPublic, s.staticPrivate, s.ephemeralPublic, s.ephemeralPrivate)
    && KeyPairs(c, s)
  }

  // The three shared secrets of the pattern, in the initiator's terms.
  ghost function EE(c: Suite, i: Session, r: Session): Option<Key> { c.dh(i.ephemeralPrivate, r.ephemeralPublic) }
  ghost function ES(c: Suite, i: Session, r: Session): Option<Key> { c.dh(i.ephemeralPrivate, r.staticPublic) }
  ghost function SE(c: Suite, i: Session, r: Session): Option<Key> { c.dh(i.staticPrivate, r.ephemeralPublic) }

  /** No key exchange of the run meets a degenerate point. */
  ghost predicate SecretsExist(c: Suite, i: Session, r: Session) {
    EE(c, i, r).Some? && ES(c, i, r).Some? && SE(c, i, r).Some?
  }

  ghost function Mixed(c: Suite, secret: Option<Key>, ck: Key): Key {
    if secret.None? then ck else c.hkdf(secret.value, ck, [1]).0
  }

  // The chaining key after ee, then es, then se.
  ghost function Chain1(c: Suite, i: Session, r: Session): Key { Mixed(c, EE(c, i, r), c.hash(ProtocolName)) }
  ghost function Chain2(c: Suite, i: Session, r: Session): Key { Mixed(c, ES(c, i, r), Chain1(c, i, r)) }
  ghost function Chain3(c: Suite, i: Session, r: Session): Key { Mixed(c, SE(c, i, r), Chain2(c, i, r)) }

  ghost function Message2(c: Suite, i: Session, r: Session): bytes {
    r.ephemeralPublic + c.seal(Chain1(c, i, r), 0, r.staticPublic)
  }

  ghost function Message3(c: Suite, i: Session, r: Session): bytes {
    c.seal(Chain2(c, i, r), 0, i.staticPublic)
  }

  lemma FirstMessage(c: Suite, i: Session)
    requires Fresh(c, i, true)
    ensures var (i1, m1) := Write(c, i, []);
            m1 == Reply(Some(i.ephemeralPublic), false) && i1 == i.(h := i1.h, step := 1)
  {
  }

  // The responder's first step, for any 32-byte message and whichever secrets exist.
  lemma ResponderFirst(c: Suite, r: Session, m: Key, ee: Option<Key>, es: Option<Key>)
    requires !r.initiator && !r.complete && r.step == 0
    requires ee == c.dh(r.ephemeralPrivate, m) && es == c.dh(r.staticPrivate, m)
    ensures var (r1, m2) := Write(c, r, m);
            if ee.None? || es.None? then m2 == Error
            else
              var k := c.hkdf(ee.value, r.ck, [1]).0;
              && m2 == Reply(Some(r.ephemeralPublic + c.seal(k, 0, r.staticPublic)), false)
              && r1 == r.(h := r1.h, ck := c.hkdf(es.value, k, [1]).0, keyed := true, remoteEphemeral := m, step := 2)
  {
    var s1 := MixHash(c, r, m).(remoteEphemeral := m, step := 1);
    if ee.Some? {
      var (s2, enc) := EncryptAndHash(c, MixKey(c, s1, ee.value), s1.staticPublic);
      assert s2.staticPrivate == r.staticPrivate && s2.remoteEphemeral == m;
    }
  }

  lemma SecondMessage(c: Suite, i: Session, r: Session)
    requires Ideal(c) && KeyPairs(c, i) && Fresh(c, r, false)
    ensures var (r1, m2) := Write(c, r, i.ephemeralPublic);
            if EE(c, i, r).None? || ES(c, i, r).None? then m2 == Error
            else
              && m2 == Reply(Some(Message2(c, i, r)), false)
              && r1 == r.(h := r1.h, ck := Chain2(c, i, r), keyed := true, remoteEphemeral := i.ephemeralPublic, step := 2)
  {
    var ee, es := EE(c, i, r), ES(c, i, r);
    assert c.dh(r.ephemeralPrivate, i.ephemeralPublic) == ee;
    assert c.dh(r.staticPrivate, i.ephemeralPublic) == es;
    ResponderFirst(c, r, i.ephemeralPublic, ee, es);
  }

  lemma ThirdMessage(c: Suite, i: Session, r: Session, i1: Session)
    requires Ideal(c) && Fresh(c, i, true) && KeyPairs(c, r) && EE(c, i, r).Some? && ES(c, i, r).Some?
    requires i1 == i.(h := i1.h, step := 1)
    ensures var (i2, m3) := Write(c, i1, Message2(c, i, r));
            if SE(c, i, r).None? then m3 == Error
            else
              && m3 == Reply(Some(Message3(c, i, r)), true)
              && i2.complete && i2.ck == Chain3(c, i, r) && i2.remotePublic == r.staticPublic
              && (i2.sendKey, i2.recvKey) == SplitKeys(c, i2.ck) && i2.sendCount == 0 && i2.recvCount == 0
  {
    var m := Message2(c, i, r);
    assert m[..32] == r.ephemeralPublic && m[32..] == c.seal(Chain1(c, i, r), 0, r.staticPublic);
  }

  lemma LastMessage(c: Suite, i: Session, r: Session, r1: Session)
    requires Ideal(c) && KeyPairs(c, i) && Fresh(c, r, false) && SecretsExist(c, i, r)
    requires r1 == r.(h := r1.h, ck := Chain2(c, i, r), keyed := true, remoteEphemeral := i.ephemeralPublic, step := 2)
    ensures var (r2, m4) := Write(c, r1, Message3(c, i, r));
            && m4 == Reply(None, true)
            && r2.complete && r2.ck == Chain3(c, i, r) && r2.remotePublic == i.staticPublic
            && (r2.recvKey, r2.sendKey) == SplitKeys(c, r2.ck) && r2.sendCount == 0 && r2.recvCount == 0
  {
    assert c.dh(r.ephemeralPrivate, i.staticPublic) == SE(c, i, r);
  }

  function Sent(m: Reply): bytes {
    if m.Reply? && m.toSend.Some? then m.toSend.value else []
  }

  /** The four calls of a faithful run: every message sent is the next one received. */
  ghost function Handshake(c: Suite, i: Session, r: Session): (Session, Session, seq<Reply>)
  {
    var (i1, m1) := Write(c, i, []);
    var (r1, m2) := Write(c, r, Sent(m1));
    var (i2, m3) := Write(c, i1, Sent(m2));
    var (r2, m4) := Write(c, r1, Sent(m3));
    (i2, r2, [m1, m2, m3, m4])
  }

  /** Both sides finished on the same chaining key, their keys cross-match and each knows the other. */
  ghost predicate Agreed(i: Session, r: Session, i2: Session, r2: Session) {
    && i2.complete && r2.complete
    && i2.ck == r2.ck && i2.sendKey == r2.recvKey && i2.recvKey == r2.sendKey
    && i2.remotePublic == r.staticPublic && r2.remotePublic == i.staticPublic
    && i2.sendCount == 0 && i2.recvCount == 0 && r2.sendCount == 0 && r2.recvCount == 0
  }

  /** A faithful run is free of errors exactly when its three key exchanges are, and an error-free run ends
      in agreement, after messages of 32, 80 and 48 bytes. */
  lemma HandshakeAgrees(c: Suite, i: Session, r: Session)
    requires Ideal(c) && Fresh(c, i, true) && Fresh(c, r, false)
    ensures var (i2, r2, m) := Handshake(c, i, r);
            && (Error !in m <==> SecretsExist(c, i, r))
            && (SecretsExist(c, i, r) ==>
                  && Agreed(i, r, i2, r2)
                  && m[0] == Reply(Some(Sent(m[0])), false) && m[1] == Reply(Some(Sent(m[1])), false)
                  && m[2] == Reply(Some(Sent(m[2])), true) && m[3] == Reply(None, true)
                  && |Sent(m[0])| == 32 && |Sent(m[1])| == 80 && |Sent(m[2])| == 48)
    ensures SecretsExist(c, i, r) ==> var (i2, r2, _) := Handshake(c, i, r);
            var ck := c.hkdf(SE(c, i, r).value, c.hkdf(ES(c, i, r).value, c.hkdf(EE(c, i, r).value, c.hash(ProtocolName), [1]).0, [1]).0, [1]).0;
            && i2.ck == ck
            && i2.sendKey == c.hkdf([], ck, [1]).0 && i2.recvKey == c.hkdf([], ck, [1]).1
            && r2.recvKey == c.hkdf([], ck, [1]).0 && r2.sendKey == c.hkdf([], ck, [1]).1
  {
    FirstMessage(c, i);
    SecondMessage(c, i, r);
    var i1, r1 := Write(c, i, []).0, Write(c, r, i.ephemeralPublic).0;
    var m := Handshake(c, i, r).2;
    if EE(c, i, r).None? || ES(c, i, r).None? {
      assert m[1] == Error;
    } else {
      ThirdMessage(c, i, r, i1);
      if SE(c, i, r).None? {
        assert m[2] == Error;
      } else {
        LastMessage(c, i, r, r1);
      }
    }
  }

  /** What an error-free run sends: the initiator's ephemeral key; the responder's, with its static key sealed under
      the first chaining key; and the initiator's static key sealed under the second. */
  lemma HandshakeMessages(c: Suite, i: Session, r: Session)
    requires Ideal(c) && Fresh(c, i, true) && Fresh(c, r, false) && SecretsExist(c, i, r)
    ensures var m := Handshake(c, i, r).2;
            var k1 := c.hkdf(EE(c, i, r).value, c.hash(ProtocolName), [1]).0;
            && Sent(m[0]) == i.ephemeralPublic && Sent(m[1]) == r.ephemeralPublic + c.seal(k1, 0, r.staticPublic)
            && Sent(m[2]) == c.seal(c.hkdf(ES(c, i, r).value, k1, [1]).0, 0, i.staticPublic)
  {
    FirstMessage(c, i);
    SecondMessage(c, i, r);
    ThirdMessage(c, i, r, Write(c, i, []).0);
  }

  // ---------- what is refused ----------

  // What is in a sealed part: 32 bytes that open under the key.
  predicate OpensTo(c: Suite, key: Key, sealed: bytes, k: bytes) {
    c.unseal(key, 0, sealed) == Some(k) && |k| == 32
  }

  // The key agreed with e opens the rest to a static key, and both keys agree with the other's.
  ghost predicate Answers(c: Suite, s: Session, e: Key, rest: bytes) {
    && c.dh(s.ephemeralPrivate, e).Some? && c.dh(s.staticPrivate, e).Some?
    && exists k: Key :: OpensTo(c, c.hkdf(c.dh(s.ephemeralPrivate, e).value, s.ck, [1]).0, rest, k) && c.dh(s.ephemeralPrivate, k).Some?
  }

  /** An unfinished responder at its first step refuses whatever is not exactly 32 bytes, or not a key to agree with. */
  lemma {:induction false} FirstRefusedIff(c: Suite, s: Session, m: bytes)
    requires !s.initiator && !s.complete && s.step == 0
    ensures Write(c, s, m).1.Error? <==> |m| != 32 || c.dh(s.ephemeralPrivate, m).None? || c.dh(s.staticPrivate, m).None?
  {
    if |m| == 32 && c.dh(s.ephemeralPrivate, m).Some? {
      ResponderFirst(c, s, m, c.dh(s.ephemeralPrivate, m), c.dh(s.staticPrivate, m));
    }
  }

  /** An initiator that has sent its key refuses whatever does not begin with a key to agree with and go on with a static
      key, to agree with as well, sealed under what was agreed. */
  lemma {:induction false} SecondRefusedIff(c: Suite, s: Session, m: bytes)
    requires s.initiator && !s.complete && s.step == 1
    ensures |m| < 32 ==> Write(c, s, m).1.Error?
    ensures |m| >= 32 ==> var e: Key := m[..32]; (!Write(c, s, m).1.Error? <==> Answers(c, s, e, m[32..]))
  {
    if |m| >= 32 && c.dh(s.ephemeralPrivate, m[..32]).Some? {
      var key := c.hkdf(c.dh(s.ephemeralPrivate, m[..32]).value, s.ck, [1]).0;
      var rs := c.unseal(key, 0, m[32..]);
      if rs.Some? && |rs.value| == 32 {
        assert OpensTo(c, key, m[32..], rs.value);
      }
    }
  }

  /** A responder that has answered refuses whatever is not a static key, to agree with, sealed under its chaining key. */
  lemma {:induction false} ThirdRefusedIff(c: Suite, s: Session, m: bytes)
    requires !s.initiator && !s.complete && s.step == 2 && s.keyed
    ensures !Write(c, s, m).1.Error? <==> exists k: Key :: OpensTo(c, s.ck, m, k) && c.dh(s.ephemeralPrivate, k).Some?
  {
    var rs := c.unseal(s.ck, 0, m);
    if rs.Some? && |rs.value| == 32 {
      assert OpensTo(c, s.ck, m, rs.value);
    }
  }

  // ---------- the handshake hash ----------

  ghost function Sealed2(c: Suite, i: Session, r: Session): bytes { c.seal(Chain1(c, i, r), 0, r.staticPublic) }

  // The hash after the protocol name, after the initiator's ephemeral key, and what each side makes of the
  // second message: the responder leaves its own ephemeral key out.
  ghost function H0(c: Suite): Key { c.hash(ProtocolName) }
  ghost function H1(c: Suite, i: Session): Key { c.hash(H0(c) + i.ephemeralPublic) }
  ghost function H2(c: Suite, i: Session, r: Session): Key { c.hash(H1(c, i) + r.ephemeralPublic) }
  ghost function InitiatorHash(c: Suite, i: Session, r: Session): Key { c.hash(H2(c, i, r) + Sealed2(c, i, r)) }
  ghost function ResponderHash(c: Suite, i: Session, r: Session): Key { c.hash(H1(c, i) + Sealed2(c, i, r)) }

  lemma InitiatorFinalHash(c: Suite, i: Session, r: Session)
    requires Ideal(c) && Fresh(c, i, true) && KeyPairs(c, r) && SecretsExist(c, i, r)
    ensures Write(c, Write(c, i, []).0, Message2(c, i, r)).0.h == c.hash(InitiatorHash(c, i, r) + Message3(c, i, r))
  {
    var m := Message2(c, i, r);
    assert m[..32] == r.ephemeralPublic && m[32..] == Sealed2(c, i, r);
    FirstMessage(c, i);
    ThirdMessage(c, i, r, Write(c, i, []).0);
  }

  lemma ResponderFinalHash(c: Suite, i: Session, r: Session)
    requires Ideal(c) && KeyPairs(c, i) && Fresh(c, r, false) && SecretsExist(c, i, r)
    ensures Write(c, Write(c, r, i.ephemeralPublic).0, Message3(c, i, r)).0.h == c.hash(ResponderHash(c, i, r) + Message3(c, i, r))
  {
    var r1 := Write(c, r, i.ephemeralPublic).0;
    assert c.dh(r.ephemeralPrivate, i.ephemeralPublic) == EE(c, i, r);
    assert c.dh(r.staticPrivate, i.ephemeralPublic) == ES(c, i, r);
    ResponderFirstHash(c, r, i.ephemeralPublic, EE(c, i, r), ES(c, i, r));
    SecondMessage(c, i, r);
    LastMessage(c, i, r, r1);
  }

  lemma ResponderFirstHash(c: Suite, r: Session, m: Key, ee: Option<Key>, es: Option<Key>)
    requires !r.initiator && !r.complete && r.step == 0 && ee.Some? && es.Some?
    requires ee == c.dh(r.ephemeralPrivate, m) && es == c.dh(r.staticPrivate, m)
    ensures Write(c, r, m).0.h == c.hash(c.hash(r.h + m) + c.seal(c.hkdf(ee.value, r.ck, [1]).0, 0, r.staticPublic))
  {
    var s1 := MixHash(c, r, m).(remoteEphemeral := m, step := 1);
    var (s2, enc) := EncryptAndHash(c, MixKey(c, s1, ee.value), s1.staticPublic);
    assert s2.staticPrivate == r.staticPrivate && s2.remoteEphemeral == m;
  }

  /** Every string a faithful run hashes. */
  ghost function HashInputs(c: Suite, i: Session, r: Session): set<bytes> {
    {ProtocolName, H0(c) + i.ephemeralPublic, H1(c, i) + r.ephemeralPublic, H2(c, i, r) + Sealed2(c, i, r),
     H1(c, i) + Sealed2(c, i, r), InitiatorHash(c, i, r) + Message3(c, i, r), ResponderHash(c, i, r) + Message3(c, i, r)}
  }

  lemma SameTail(a: Key, b: Key, x: bytes)
    requires a + x == b + x
    ensures a == b
  {
    assert (a + x)[..32] == a && (b + x)[..32] == b;
  }

  lemma SameHead(a: Key, x: bytes, b: Key, y: bytes)
    requires a + x == b + y
    ensures a == b && x == y
  {
    assert (a + x)[..32] == a && (b + y)[..32] == b && (a + x)[32..] == x && (b + y)[32..] == y;
  }

  /** If the hash does not collide on those strings, the two sides of an error-free run end with different
      handshake hashes. */
  lemma HashesDiffer(c: Suite, i: Session, r: Session)
    requires Ideal(c) && Fresh(c, i, true) && Fresh(c, r, false) && SecretsExist(c, i, r)
    requires forall x, y :: x in HashInputs(c, i, r) && y in HashInputs(c, i, r) && c.hash(x) == c.hash(y) ==> x == y
    ensures Handshake(c, i, r).0.h != Handshake(c, i, r).1.h
  {
    FinalHashes(c, i, r);
    assert |H0(c) + i.ephemeralPublic| != |ProtocolName|;
    if c.hash(InitiatorHash(c, i, r) + Message3(c, i, r)) == c.hash(ResponderHash(c, i, r) + Message3(c, i, r)) {
      SameTail(InitiatorHash(c, i, r), ResponderHash(c, i, r), Message3(c, i, r));
      SameTail(H2(c, i, r), H1(c, i), Sealed2(c, i, r));
      SameHead(H1(c, i), r.ephemeralPublic, H0(c), i.ephemeralPublic);
    }
  }

  lemma FinalHashes(c: Suite, i: Session, r: Session)
    requires Ideal(c) && Fresh(c, i, true) && Fresh(c, r, false) && SecretsExist(c, i, r)
    ensures Handshake(c, i, r).0.h == c.hash(InitiatorHash(c, i, r) + Message3(c, i, r))
    ensures Handshake(c, i, r).1.h == c.hash(ResponderHash(c, i, r) + Message3(c, i, r))
  {
    FirstMessage(c, i);
    SecondMessage(c, i, r);
    ThirdMessage(c, i, r, Write(c, i, []).0);
    InitiatorFinalHash(c, i, r);
    ResponderFinalHash(c, i, r);
  }

  // ---------- any inbound messages ----------

  const CounterRange: nat := 0x1_0000_0000_0000_0000

  /** The 64-bit counter wraps; the overflow guard compares it with the largest 64-bit number. */
  function Encrypt(c: Suite, s: Session, plaintext: bytes): (Session, Option<bytes>) {
    if !s.complete || s.sendCount > CounterRange - 1 then (s, None)
    else (s.(sendCount := (s.sendCount + 1) % CounterRange), Some(c.seal(s.sendKey, s.sendCount, plaintext)))
  }

  // The counter moves on even when the message does not open.
  function Decrypt(c: Suite, s: Session, ciphertext: bytes): (Session, Option<bytes>) {
    if !s.complete || |ciphertext| < Overhead || s.recvCount > CounterRange - 1 then (s, None)
    else (s.(recvCount := (s.recvCount + 1) % CounterRange), c.unseal(s.recvKey, s.recvCount, ciphertext))
  }

  datatype Call = Shake(msg: bytes) | Protect(plaintext: bytes) | Unprotect(ciphertext: bytes)

  function Step(c: Suite, s: Session, call: Call): Session {
    match call
    case Shake(m) => Write(c, s, m).0
    case Protect(p) => Encrypt(c, s, p).0
    case Unprotect(m) => Decrypt(c, s, m).0
  }

  function Run(c: Suite, s: Session, calls: seq<Call>): Session
    decreases |calls|
  {
    if calls == [] then s else Run(c, Step(c, s, calls[0]), calls[1..])
  }

  /** Unfinished sessions have no transport keys; finished ones have the two halves of their chaining key. */
  ghost predicate Sound(c: Suite, s: Session) {
    && s.sendCount < CounterRange && s.recvCount < CounterRange
    && if s.complete then
         SplitKeys(c, s.ck) == if s.initiator then (s.sendKey, s.recvKey) else (s.recvKey, s.sendKey)
       else s.sendKey == ZeroKey && s.recvKey == ZeroKey && s.sendCount == 0 && s.recvCount == 0
  }

  // Everything but the two counters.
  ghost predicate SameKeys(s: Session, t: Session) {
    t == s.(sendCount := t.sendCount, recvCount := t.recvCount)
  }

  lemma InitiatorSound(c: Suite, s: Session, m: bytes)
    requires Sound(c, s) && s.initiator && !s.complete
    ensures Sound(c, InitiatorWrite(c, s, m).0) && InitiatorWrite(c, s, m).0.initiator
  {
  }

  lemma ResponderSound(c: Suite, s: Session, m: bytes)
    requires Sound(c, s) && !s.initiator && !s.complete
    ensures Sound(c, ResponderWrite(c, s, m).0) && !ResponderWrite(c, s, m).0.initiator
  {
  }

  lemma StepSound(c: Suite, s: Session, call: Call)
    requires Sound(c, s)
    ensures Sound(c, Step(c, s, call))
    ensures s.complete ==> SameKeys(s, Step(c, s, call))
    ensures Step(c, s, call).initiator == s.initiator
  {
    if call.Shake? && !s.complete {
      if s.initiator {
        InitiatorSound(c, s, call.msg);
      } else {
        ResponderSound(c, s, call.msg);
      }
    }
  }

  /** Whatever arrives, in whatever order of calls: a session that is complete has the keys of its chaining
      key, one that is not has none, and once complete only the counters ever change. */
  lemma {:induction false} EveryRunSound(c: Suite, s: Session, calls: seq<Call>)
    requires Sound(c, s)
    ensures Sound(c, Run(c, s, calls))
    ensures s.complete ==> SameKeys(s, Run(c, s, calls))
    decreases |calls|
  {
    if calls != [] {
      StepSound(c, s, calls[0]);
      EveryRunSound(c, Step(c, s, calls[0]), calls[1..]);
    }
  }

  /** An instance of the laws, so they are not contradictory. */
  function Toy(): (c: Suite)
    ensures Ideal(c)
  {
    var tag: bytes := ZeroKey[..Overhead];
    Suite(
      (k: Key) => k,
      (a: Key, b: Key) => Some(ZeroKey),
      (d: bytes) => ZeroKey,
      (s: bytes, salt: bytes, info: bytes) => (ZeroKey, ZeroKey),
      (k: Key, n: nat, p: bytes) => p + tag,
      (k: Key, n: nat, m: bytes) => if |m| < Overhead then None else Some(m[..|m| - Overhead]))
  }
}
