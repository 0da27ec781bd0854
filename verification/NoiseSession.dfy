/** The session objects of the handshake: every method changes the fields exactly as the step functions say. */
module NoiseSession {
  import opened Bytes
  import opened Options
  import N = Noise
  import H = Hybrid

  type Key = N.Key

  class NoiseSession {
    const suite: N.Suite
    const isInitiator: bool
    const staticPublic: Key
    const staticPrivate: Key
    const ephemeralPublic: Key
    const ephemeralPrivate: Key
    var remotePublic: Key
    var remoteEphemeral: Key
    var h: Key
    var ck: Key
    var ok: bool
    var sendKey: Key
    var recvKey: Key
    var sendCount: nat
    var recvCount: nat
    var step: nat
    var complete: bool

    ghost function View(): N.Session
      reads this
    {
      N.Session(isInitiator, staticPublic, staticPrivate, ephemeralPublic, ephemeralPrivate, remotePublic, remoteEphemeral,
                h, ck, ok, sendKey, recvKey, sendCount, recvCount, step, complete)
    }

    /** Keys only with completion, and then the halves of the chaining key. */
    ghost predicate Valid()
      reads this
    {
      N.Sound(suite, View())
    }

    constructor (c: N.Suite, initiator: bool, sPub: Key, sPriv: Key, ePub: Key, ePriv: Key)
      ensures Valid() && suite == c && View() == N.New(c, initiator, sPub, sPriv, ePub, ePriv)
    {
      suite, isInitiator := c, initiator;
      staticPublic, staticPrivate, ephemeralPublic, ephemeralPrivate := sPub, sPriv, ePub, ePriv;
      remotePublic, remoteEphemeral, sendKey, recvKey := N.ZeroKey, N.ZeroKey, N.ZeroKey, N.ZeroKey;
      h := c.hash(N.ProtocolName);
      ck := c.hash(N.ProtocolName);
      ok, complete, sendCount, recvCount, step := false, false, 0, 0, 0;
    }

    method MixHash(data: bytes)
      modifies this
      ensures View() == N.MixHash(suite, old(View()), data)
    {
      h := suite.hash(h + data);
    }

    method MixKey(secret: Key)
      modifies this
      ensures View() == N.MixKey(suite, old(View()), secret)
    {
      ck := suite.hkdf(secret, ck, [1]).0;
      ok := true;
    }

    method EncryptAndHash(plaintext: bytes) returns (out: bytes)
      modifies this
      ensures (View(), out) == N.EncryptAndHash(suite, old(View()), plaintext)
    {
      if ok {
        out := suite.seal(ck, 0, plaintext);
      } else {
        out := plaintext;
      }
      MixHash(out);
    }

    method DecryptAndHash(ciphertext: bytes) returns (out: Option<bytes>)
      modifies this
      ensures (View(), out) == N.DecryptAndHash(suite, old(View()), ciphertext)
    {
      if ok {
        out := suite.unseal(ck, 0, ciphertext);
        if out.None? {
          return;
        }
      } else {
        out := Some(ciphertext);
      }
      MixHash(ciphertext);
    }

    method Split()
      modifies this
      ensures View() == N.Split(suite, old(View()))
    {
      var keys := suite.hkdf([], ck, [1]);
      sendKey, recvKey := keys.0, keys.1;
      if !isInitiator {
        sendKey, recvKey := recvKey, sendKey;
      }
    }

    method InitiatorReply() returns (r: N.Reply)
      modifies this
      ensures (View(), r) == N.InitiatorReply(suite, old(View()))
    {
      var es := suite.dh(ephemeralPrivate, remotePublic);
      if es.None? {
        return N.Error;
      }
      MixKey(es.value);
      var enc := EncryptAndHash(staticPublic);
      var se := suite.dh(staticPrivate, remoteEphemeral);
      if se.None? {
        return N.Error;
      }
      MixKey(se.value);
      Split();
      step, complete := 3, true;
      return N.Reply(Some(enc), true);
    }

    method InitiatorWrite(peerMsg: bytes) returns (r: N.Reply)
      modifies this
      ensures (View(), r) == N.InitiatorWrite(suite, old(View()), peerMsg)
    {
      if step == 0 {
        MixHash(ephemeralPublic);
        step := 1;
        return N.Reply(Some(ephemeralPublic), false);
      } else if step == 1 {
        if |peerMsg| < 32 {
          return N.Error;
        }
        MixHash(peerMsg[..32]);
        remoteEphemeral := peerMsg[..32];
        var ee := suite.dh(ephemeralPrivate, remoteEphemeral);
        if ee.None? {
          return N.Error;
        }
        MixKey(ee.value);
        var rs := DecryptAndHash(peerMsg[32..]);
        if rs.None? || |rs.value| != 32 {
          return N.Error;
        }
        remotePublic := rs.value;
        r := InitiatorReply();
        return;
      }
      return N.Error;
    }

    method ResponderWrite(peerMsg: bytes) returns (r: N.Reply)
      modifies this
      ensures (View(), r) == N.ResponderWrite(suite, old(View()), peerMsg)
    {
      if step == 0 {
        if |peerMsg| != 32 {
          return N.Error;
        }
        MixHash(peerMsg);
        remoteEphemeral := peerMsg;
        step := 1;
        var ee := suite.dh(ephemeralPrivate, remoteEphemeral);
        if ee.None? {
          return N.Error;
        }
        MixKey(ee.value);
        var enc := EncryptAndHash(staticPublic);
        var es := suite.dh(staticPrivate, remoteEphemeral);
        if es.None? {
          return N.Error;
        }
        MixKey(es.value);
        step := 2;
        return N.Reply(Some(ephemeralPublic + enc), false);
      } else if step == 2 {
        var rs := DecryptAndHash(peerMsg);
        if rs.None? || |rs.value| != 32 {
          return N.Error;
        }
        remotePublic := rs.value;
        var se := suite.dh(ephemeralPrivate, remotePublic);
        if se.None? {
          return N.Error;
        }
        MixKey(se.value);
        Split();
        complete := true;
        return N.Reply(None, true);
      }
      return N.Error;
    }

    method WriteHandshake(peerMsg: bytes) returns (r: N.Reply)
      requires Valid()
      modifies this
      ensures Valid() && (old(complete) ==> N.SameKeys(old(View()), View()))
      ensures (View(), r) == N.Write(suite, old(View()), peerMsg)
    {
      N.StepSound(suite, View(), N.Shake(peerMsg));
      if complete {
        r := N.Reply(None, true);
      } else if isInitiator {
        r := InitiatorWrite(peerMsg);
      } else {
        r := ResponderWrite(peerMsg);
      }
    }

    method Encrypt(plaintext: bytes) returns (out: Option<bytes>)
      requires Valid()
      modifies this
      ensures Valid() && N.SameKeys(old(View()), View()) && (out.None? <==> !complete)
      ensures (View(), out) == N.Encrypt(suite, old(View()), plaintext)
    {
      if !complete || sendCount > N.CounterRange - 1 {
        return None;
      }
      var nonce := sendCount;
      sendCount := (sendCount + 1) % N.CounterRange;
      return Some(suite.seal(sendKey, nonce, plaintext));
    }

    method Decrypt(ciphertext: bytes) returns (out: Option<bytes>)
      requires Valid()
      modifies this
      ensures Valid() && N.SameKeys(old(View()), View()) && (out.Some? ==> complete)
      ensures (View(), out) == N.Decrypt(suite, old(View()), ciphertext)
      ensures recvCount == if old(complete) && |ciphertext| >= N.Overhead then (old(recvCount) + 1) % N.CounterRange else old(recvCount)
    {
      if !complete || |ciphertext| < N.Overhead || recvCount > N.CounterRange - 1 {
        return None;
      }
      var nonce := recvCount;
      recvCount := (recvCount + 1) % N.CounterRange;
      return suite.unseal(recvKey, nonce, ciphertext);
    }
  }

  class HybridHandshakeState {
    const noise: NoiseSession
    const kem: H.Kem
    const kyberPub: bytes
    const kyberSec: bytes
    var kyberSS: bytes
    var peerKyberPub: bytes
    var hasKyberSS: bool

    ghost function View(): H.State
      reads this, noise
    {
      H.State(noise.View(), kyberPub, kyberSec, kyberSS, peerKyberPub, hasKyberSS)
    }

    ghost predicate Valid()
      reads this, noise
    {
      noise.Valid()
    }

    constructor (session: NoiseSession, k: H.Kem, pk: bytes, sk: bytes)
      requires session.Valid()
      ensures Valid() && noise == session && kem == k && View() == H.State(session.View(), pk, sk, [], [], false)
    {
      noise, kem, kyberPub, kyberSec := session, k, pk, sk;
      kyberSS, peerKyberPub, hasKyberSS := [], [], false;
    }

    method WriteHandshake(peerMsg: Option<bytes>, seed: Option<Key>) returns (r: N.Reply)
      requires Valid()
      modifies this, noise
      ensures Valid() && (old(noise.complete) ==> View() == old(View()))
      ensures (View(), r) == H.Write(noise.suite, kem, old(View()), peerMsg, seed)
    {
      if noise.complete {
        return N.Reply(None, true);
      }
      var msg := if peerMsg.None? then [] else peerMsg.value;
      if noise.isInitiator && peerMsg.None? {
        var reply := noise.WriteHandshake([]);
        if reply.Error? {
          return N.Error;
        }
        return N.Reply(Some(kyberPub + N.Sent(reply)), reply.complete);
      } else if noise.isInitiator && |msg| > 0 {
        if |msg| < H.CiphertextSize || |kyberSec| != H.SecretKeySize {
          return N.Error;
        }
        kyberSS := kem.decap(msg[..H.CiphertextSize], kyberSec);
        hasKyberSS := true;
        r := noise.WriteHandshake(msg[H.CiphertextSize..]);
      } else if !noise.isInitiator && noise.step < 1 {
        if |msg| < H.PublicKeySize {
          return N.Error;
        }
        var peer := msg[..H.PublicKeySize];
        var reply := noise.WriteHandshake(msg[H.PublicKeySize..]);
        if reply.Error? || seed.None? {
          return N.Error;
        }
        var pair := kem.encap(peer, seed.value);
        kyberSS, hasKyberSS, peerKyberPub := pair.1, true, peer;
        return N.Reply(Some(pair.0 + N.Sent(reply)), false);
      } else {
        r := noise.WriteHandshake(msg);
      }
    }

    method Encrypt(plaintext: bytes) returns (out: Option<bytes>)
      requires Valid()
      modifies noise
      ensures Valid() && (out.None? <==> !noise.complete)
      ensures (View(), out) == H.Encrypt(noise.suite, old(View()), plaintext)
    {
      if !noise.complete {
        return None;
      }
      out := noise.Encrypt(plaintext);
    }

    method Decrypt(ciphertext: bytes) returns (out: Option<bytes>)
      requires Valid()
      modifies noise
      ensures Valid() && (out.Some? ==> noise.complete)
      ensures (View(), out) == H.Decrypt(noise.suite, old(View()), ciphertext)
    {
      if !noise.complete {
        return None;
      }
      out := noise.Decrypt(ciphertext);
    }

    method SessionKey() returns (key: Key)
      ensures key == H.SessionKey(noise.suite, View())
    {
      key := noise.suite.hkdf(noise.sendKey, kyberSS, H.SessionInfo).0;
    }

    method RecvSessionKey() returns (key: Key)
      ensures key == H.RecvSessionKey(noise.suite, View())
    {
      key := noise.suite.hkdf(noise.recvKey, kyberSS, H.SessionInfo).0;
    }
  }
}
