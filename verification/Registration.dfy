/** Node registration: a proof of work over the announced identity, its wire form, and the gate that
    admits a peer. The hash is a parameter. */
module Registration {
  import opened Bytes
  import opened Options
  import opened NodeIds
  import opened Closest
  import opened Routing
  import LeadingZeros
  import Merkle
  import Wire

  const MinPoWDifficulty := 8
  const MaxPoWDifficulty := 24
  const NonceCeiling: nat := 0x1_0000_0000
  const MaxUint16 := 0xffff

  /** An announcement: a 32-byte key, an 8-byte nonce, a difficulty, a name and addresses. */
  datatype Announcement = Announcement(pubKey: bytes, nonce: bytes, difficulty: nat, name: bytes, addrs: seq<bytes>) {
    predicate Sized() {
      |pubKey| == 32 && |nonce| == 8 && difficulty < 256
    }
  }

  // ---------- proof of work ----------

  function AddrBytes(addrs: seq<bytes>): bytes {
    if addrs == [] then [] else AddrBytes(addrs[..|addrs| - 1]) + [|addrs[|addrs| - 1]| % 256] + addrs[|addrs| - 1]
  }

  /** What the work commits to: key, name and every address. */
  function Challenge(pubKey: bytes, name: bytes, addrs: seq<bytes>): bytes {
    pubKey + name + AddrBytes(addrs)
  }

  lemma {:induction false} AddrFront(addrs: seq<bytes>)
    requires addrs != []
    ensures AddrBytes(addrs) == [|addrs[0]| % 256] + addrs[0] + AddrBytes(addrs[1..])
    decreases |addrs|
  {
    var n := |addrs| - 1;
    if n == 0 {
      assert addrs[..0] == [] && addrs[1..] == [];
      assert AddrBytes([]) + [|addrs[0]| % 256] + addrs[0] == [|addrs[0]| % 256] + addrs[0] + AddrBytes([]);
    } else {
      AddrFront(addrs[..n]);
      assert addrs[..n][1..] == addrs[1..][..n - 1];
      var a, b, c := [|addrs[0]| % 256] + addrs[0], AddrBytes(addrs[1..][..n - 1]), [|addrs[n]| % 256];
      assert AddrBytes(addrs[1..]) == b + c + addrs[n];
      assert a + b + c + addrs[n] == a + (b + c + addrs[n]);
    }
  }

  // Addresses whose length one byte tells.
  predicate Told(addrs: seq<bytes>) { forall i :: 0 <= i < |addrs| ==> |addrs[i]| < 256 }

  lemma {:induction false} AddrBytesTell(xs: seq<bytes>, ys: seq<bytes>)
    requires Told(xs) && Told(ys) && AddrBytes(xs) == AddrBytes(ys)
    ensures xs == ys
    decreases |xs|
  {
    if xs != [] {
      AddrFront(xs);
    }
    if ys != [] {
      AddrFront(ys);
    }
    if xs != [] && ys != [] {
      FrontTells(xs[0], AddrBytes(xs[1..]), ys[0], AddrBytes(ys[1..]));
      AddrBytesTell(xs[1..], ys[1..]);
      assert xs == [xs[0]] + xs[1..] && ys == [ys[0]] + ys[1..];
    }
  }

  lemma FrontTells(x: bytes, r: bytes, y: bytes, t: bytes)
    requires |x| < 256 && |y| < 256 && [|x| % 256] + x + r == [|y| % 256] + y + t
    ensures x == y && r == t
  {
    var a, b := [|x|] + x + r, [|y|] + y + t;
    assert a[0] == b[0];
    assert a[1..][..|x|] == x && b[1..][..|y|] == y && a[1 + |x|..] == r && b[1 + |y|..] == t;
  }

  /** The work commits to the key, the name and every address, in order, among announcements with names of one length
      and addresses of less than 256 bytes. */
  lemma ChallengeTells(key: bytes, name: bytes, addrs: seq<bytes>, key': bytes, name': bytes, addrs': seq<bytes>)
    requires |key| == |key'| && |name| == |name'| && Told(addrs) && Told(addrs')
    ensures Challenge(key, name, addrs) == Challenge(key', name', addrs') <==> key == key' && name == name' && addrs == addrs'
  {
    var c, c' := Challenge(key, name, addrs), Challenge(key', name', addrs');
    var n, m := |key|, |key| + |name|;
    assert c[..n] == key && c[n..m] == name && c[m..] == AddrBytes(addrs);
    assert c'[..n] == key' && c'[n..m] == name' && c'[m..] == AddrBytes(addrs');
    if c == c' {
      AddrBytesTell(addrs, addrs');
    }
  }

  // Another name and list of addresses makes no such challenge.
  ghost predicate OnlyChallenge(key: bytes, name: bytes, addrs: seq<bytes>) {
    forall name', addrs' :: Challenge(key, name', addrs') == Challenge(key, name, addrs) ==> name' == name && addrs' == addrs
  }

  // The byte at p counts the bytes behind it.
  predicate CountsRest(name: bytes, p: nat)
    requires p < |name|
  {
    name[p] == (|name| - p - 1) % 256
  }

  /** Nothing marks where the name ends, so the work does not commit to it alone: the challenge belongs to one name and
      list of addresses if and only if there is no address and no byte of the name counts the bytes behind it. */
  lemma OnlyChallengeIff(key: bytes, name: bytes, addrs: seq<bytes>)
    ensures OnlyChallenge(key, name, addrs) <==> addrs == [] && forall p :: 0 <= p < |name| ==> !CountsRest(name, p)
  {
    if addrs != [] {
      var all := name + AddrBytes(addrs);
      assert AddrBytes([]) == [] && Challenge(key, all, []) == Challenge(key, name, addrs) by {
        assert key + name + AddrBytes(addrs) == key + all + [];
      }
    } else if p :| 0 <= p < |name| && CountsRest(name, p) {
      OtherSplit(key, name, p);
    } else {
      forall name', addrs' | Challenge(key, name', addrs') == Challenge(key, name, addrs)
        ensures name' == name && addrs' == addrs
      {
        NoOtherSplit(key, name, name', addrs');
      }
    }
  }

  lemma OtherSplit(key: bytes, name: bytes, p: nat)
    requires p < |name| && CountsRest(name, p)
    ensures Challenge(key, name[..p], [name[p + 1..]]) == Challenge(key, name, []) && name[..p] != name
  {
    var x := name[p + 1..];
    var one: seq<bytes> := [x];
    AddrFront(one);
    assert one[1..] == [];
    assert name == name[..p] + ([|x| % 256] + x);
    assert key + name[..p] + ([|x| % 256] + x + []) == key + name + [];
  }

  lemma NoOtherSplit(key: bytes, name: bytes, name': bytes, addrs': seq<bytes>)
    requires Challenge(key, name', addrs') == Challenge(key, name, [])
    ensures if addrs' == [] then name' == name else exists p :: 0 <= p < |name| && CountsRest(name, p)
  {
    var n, m := |key|, |addrs'|;
    assert Challenge(key, name, [])[n..] == name && Challenge(key, name', addrs')[n..] == name' + AddrBytes(addrs');
    if m > 0 {
      var a := addrs'[m - 1];
      var front := name' + AddrBytes(addrs'[..m - 1]);
      assert name == front + [|a| % 256] + a;
      assert CountsRest(name, |front|);
    }
  }

  predicate VerifyPoW(h: Merkle.Hash, data: bytes, nonce: bytes, difficulty: int) {
    && |nonce| == 8 && MinPoWDifficulty <= difficulty <= MaxPoWDifficulty
    && LeadingZeros.BigEndian(h(data + nonce)) < LeadingZeros.Pow2(256 - difficulty)
  }

  /** The numeric test is the bit test: a nonce is good exactly when the hash starts with that many zero bits. */
  lemma WorkIsLeadingZeros(h: Merkle.Hash, data: bytes, nonce: bytes, difficulty: int)
    requires |nonce| == 8 && MinPoWDifficulty <= difficulty <= MaxPoWDifficulty
    ensures VerifyPoW(h, data, nonce, difficulty) <==> LeadingZeros.Count(h(data + nonce)) >= difficulty
  {
    LeadingZeros.ZerosMeanSmall(h(data + nonce), difficulty);
  }

  /** Searches the nonces in order and returns the first that works. */
  method SolvePoW(h: Merkle.Hash, data: bytes, difficulty: int) returns (r: Option<bytes>)
    ensures r.Some? ==> VerifyPoW(h, data, r.value, difficulty) && exists n: nat :: n < NonceCeiling && FirstNonce(h, data, difficulty, n) && r.value == Wire.Put(8, n)
    ensures r.None? ==> !(MinPoWDifficulty <= difficulty <= MaxPoWDifficulty)
                        || forall n: nat :: n < NonceCeiling ==> !VerifyPoW(h, data, Wire.Put(8, n), difficulty)
  {
    if difficulty < MinPoWDifficulty || difficulty > MaxPoWDifficulty {
      return None;
    }
    var target := LeadingZeros.Pow2(256 - difficulty);
    var nonce := 0;
    while nonce < NonceCeiling
      invariant nonce <= NonceCeiling
      invariant forall n: nat :: n < nonce ==> !VerifyPoW(h, data, Wire.Put(8, n), difficulty)
    {
      var nonceBytes := Wire.Put(8, nonce);
      if LeadingZeros.BigEndian(h(data + nonceBytes)) < target {
        assert FirstNonce(h, data, difficulty, nonce);
        return Some(nonceBytes);
      }
      nonce := nonce + 1;
    }
    return None;
  }

  // n is the least nonce that works.
  ghost predicate FirstNonce(h: Merkle.Hash, data: bytes, difficulty: int, n: nat) {
    && VerifyPoW(h, data, Wire.Put(8, n), difficulty)
    && forall m: nat :: m < n ==> !VerifyPoW(h, data, Wire.Put(8, m), difficulty)
  }

  // ---------- the wire form ----------

  // The first address, length first; nothing when there is none or it is too long.
  function AddrBlock(addrs: seq<bytes>): bytes {
    if addrs == [] || |addrs[0]| > MaxUint16 then [] else Wire.Put(2, |addrs[0]|) + addrs[0]
  }

  function CutName(name: bytes): bytes {
    if |name| > MaxUint16 then name[..MaxUint16] else name
  }

  function Encode(a: Announcement): bytes
    requires a.Sized()
  {
    var name, block := CutName(a.name), AddrBlock(a.addrs);
    a.pubKey + a.nonce + [a.difficulty] + Wire.Put(2, |name|) + name + Wire.Put(2, |block|) + block
  }

  /** The address block as a list: each entry a two-byte length and that many bytes, none empty. */
  function AddrList(block: bytes): Option<seq<bytes>>
    decreases |block|
  {
    if block == [] then Some([])
    else if |block| < 2 then None
    else
      var l := Wire.Get(block[..2]);
      if l == 0 || 2 + l > |block| then None
      else
        var rest := AddrList(block[2 + l..]);
        if rest.None? then None else Some([block[2..2 + l]] + rest.value)
  }

  /** The addresses as a block: each behind its two-byte length. */
  function Framed(addrs: seq<bytes>): bytes {
    if addrs == [] then [] else Wire.Put(2, |addrs[0]|) + addrs[0] + Framed(addrs[1..])
  }

  predicate Framable(addrs: seq<bytes>) { forall i :: 0 <= i < |addrs| ==> 1 <= |addrs[i]| <= MaxUint16 }

  lemma {:induction false} FramedRead(addrs: seq<bytes>)
    requires Framable(addrs)
    ensures AddrList(Framed(addrs)) == Some(addrs)
    decreases |addrs|
  {
    if addrs != [] {
      FramedRead(addrs[1..]);
      FirstFramed(addrs, addrs[0], addrs[1..], Framed(addrs[1..]));
    }
  }

  lemma {:induction false} FirstFramed(addrs: seq<bytes>, a: bytes, rest: seq<bytes>, tail: bytes)
    requires addrs == [a] + rest && 1 <= |a| <= MaxUint16 && tail == Framed(rest) && AddrList(tail) == Some(rest)
    ensures AddrList(Framed(addrs)) == Some(addrs)
  {
    assert addrs[1..] == rest;
    Wire.Wraps16(|a|);
    FrameRead(Wire.Put(2, |a|), a, tail, Framed(addrs));
  }

  lemma {:induction false} ReadFramed(block: bytes, addrs: seq<bytes>)
    requires AddrList(block) == Some(addrs)
    ensures block == Framed(addrs) && Framable(addrs)
    decreases |block|
  {
    if block != [] {
      var l := Wire.Get(block[..2]);
      var a, rest := block[2..2 + l], AddrList(block[2 + l..]).value;
      ReadFramed(block[2 + l..], rest);
      FrameWritten(block, l);
      assert addrs == [a] + rest && addrs[1..] == rest;
    }
  }

  /** Reading a block gives exactly the addresses it is made of, however many; anything else is refused. */
  lemma {:induction false} AddrListIff(block: bytes, addrs: seq<bytes>)
    ensures AddrList(block) == Some(addrs) <==> block == Framed(addrs) && Framable(addrs)
  {
    if Framable(addrs) {
      FramedRead(addrs);
    }
    if AddrList(block) == Some(addrs) {
      ReadFramed(block, addrs);
    }
  }

  lemma FrameRead(p: bytes, a: bytes, rest: bytes, block: bytes)
    requires |p| == 2 && Wire.Get(p) == |a| > 0 && block == p + a + rest
    ensures AddrList(block) == if AddrList(rest).None? then None else Some([a] + AddrList(rest).value)
  {
    ThreeParts(p, a, rest, block);
  }

  lemma ThreeParts(p: bytes, a: bytes, rest: bytes, block: bytes)
    requires block == p + a + rest
    ensures |block| == |p| + |a| + |rest| && block[..|p|] == p && block[|p|..|p| + |a|] == a && block[|p| + |a|..] == rest
  {
  }

  // A length read is the length written.
  lemma FrameWritten(block: bytes, l: nat)
    requires 2 + l <= |block| && l == Wire.Get(block[..2])
    ensures l <= MaxUint16 && block == Wire.Put(2, l) + block[2..2 + l] + block[2 + l..]
  {
    var x, y := block[0], block[1];
    assert block[..2] == [x, y];
    Wire.Get2(x, y);
    Wire.Put2(l);
    assert Wire.Put(2, l) == [x, y];
  }

  method DecodeAddrs(data: bytes, start: nat, end: nat) returns (r: Option<seq<bytes>>)
    requires start <= end <= |data|
    ensures r == AddrList(data[start..end])
  {
    var addrs: seq<bytes> := [];
    var off := start;
    PrependNil(AddrList(data[start..end]));
    while off < end
      invariant start <= off <= end
      invariant AddrList(data[start..end]) == Prepend(addrs, AddrList(data[off..end]))
    {
      ghost var block := data[off..end];
      if off + 2 > end {
        return None;
      }
      Wire.SliceOfSlice(data, off, end, 0, 2);
      var l := Wire.Get(data[off..off + 2]);
      if l == 0 || off + 2 + l > end {
        return None;
      }
      Wire.SliceOfSlice(data, off, end, 2, 2 + l);
      Wire.SliceOfSlice(data, off, end, 2 + l, end - off);
      var a := data[off + 2..off + 2 + l];
      PrependOne(addrs, a, AddrList(data[off + 2 + l..end]));
      addrs := addrs + [a];
      off := off + 2 + l;
    }
    PrependNone(addrs);
    return Some(addrs);
  }

  function Prepend(xs: seq<bytes>, r: Option<seq<bytes>>): Option<seq<bytes>> {
    if r.None? then None else Some(xs + r.value)
  }

  lemma PrependNil(r: Option<seq<bytes>>)
    ensures Prepend([], r) == r
  {
    if r.Some? {
      assert [] + r.value == r.value;
    }
  }

  lemma PrependNone(xs: seq<bytes>)
    ensures Prepend(xs, Some([])) == Some(xs)
  {
    assert xs + [] == xs;
  }

  lemma PrependOne(xs: seq<bytes>, a: bytes, r: Option<seq<bytes>>)
    ensures Prepend(xs + [a], r) == Prepend(xs, if r.None? then None else Some([a] + r.value))
  {
    if r.Some? {
      assert xs + [a] + r.value == xs + ([a] + r.value);
    }
  }

  function Decode(data: bytes): Option<Announcement> {
    if |data| < 43 then None
    else
      var n := Wire.Get(data[41..43]);
      if |data| < 43 + n + 2 then None
      else
        var m := Wire.Get(data[43 + n..45 + n]);
        if |data| < 45 + n + m then None
        else
          var addrs := AddrList(data[45 + n..45 + n + m]);
          if addrs.None? then None
          else Some(Announcement(data[..32], data[32..40], data[40], data[43..43 + n], addrs.value))
  }

  // ---------- round trip ----------

  lemma EncodedFields(a: Announcement, name: bytes, block: bytes, data: bytes)
    requires a.Sized() && name == CutName(a.name) && block == AddrBlock(a.addrs) && data == Encode(a)
    ensures var n := |name|;
            && |data| == 45 + n + |block|
            && data[..32] == a.pubKey && data[32..40] == a.nonce && data[40] == a.difficulty
            && Wire.Get(data[41..43]) == n % 0x10000 && data[43..43 + n] == name
            && Wire.Get(data[43 + n..45 + n]) == |block| % 0x10000 && data[45 + n..] == block
  {
    var q1 := a.pubKey;
    var q2 := q1 + a.nonce;
    var q3 := q2 + [a.difficulty];
    var q4 := q3 + Wire.Put(2, |name|);
    var q5 := q4 + name;
    var q6 := q5 + Wire.Put(2, |block|);
    assert data == q6 + block;
    Wire.Field16(q5, |block|, data);
    Wire.Field(q4, name, data);
    Wire.Field16(q3, |name|, data);
    Wire.Field(q2, [a.difficulty], data);
    Wire.Field(q1, a.nonce, data);
  }

  // What decoding makes of an encoded announcement, field by field.
  lemma DecodeEncoded(a: Announcement, name: bytes, block: bytes)
    requires a.Sized() && name == CutName(a.name) && block == AddrBlock(a.addrs)
    ensures var m := |block| % 0x10000; var list := AddrList(block[..m]);
            Decode(Encode(a)) == if list.None? then None else Some(a.(name := name, addrs := list.value))
  {
    var data, m := Encode(a), |block| % 0x10000;
    EncodedFields(a, name, block, data);
    DecodeFields(a, name, block, data, m);
  }

  lemma DecodeFields(a: Announcement, name: bytes, block: bytes, data: bytes, m: nat)
    requires |data| == 45 + |name| + |block| && m <= |block|
    requires data[..32] == a.pubKey && data[32..40] == a.nonce && data[40] == a.difficulty
    requires Wire.Get(data[41..43]) == |name| && data[43..43 + |name|] == name
    requires Wire.Get(data[43 + |name|..45 + |name|]) == m && data[45 + |name|..] == block
    ensures var list := AddrList(block[..m]);
            Decode(data) == if list.None? then None else Some(a.(name := name, addrs := list.value))
  {
    var n := |name|;
    assert data[45 + n..45 + n + m] == data[45 + n..][..m];
  }

  lemma OneAddress(a: bytes)
    requires 1 <= |a| <= 65533
    ensures AddrBlock([a])[..|AddrBlock([a])| % 0x10000] == AddrBlock([a]) && AddrList(AddrBlock([a])) == Some([a])
  {
    var block := AddrBlock([a]);
    Wire.Wraps16(|a|);
    Wire.Field([], Wire.Put(2, |a|), block);
    Wire.Field(Wire.Put(2, |a|), a, block);
    assert block[2 + |a|..] == [];
    assert [a] + [] == [a];
    assert block[..|block|] == block;
  }

  // Whatever the length of the first address, the decoded list is that address alone, or empty, or an error.
  lemma FirstAddressOnly(addrs: seq<bytes>)
    ensures var block := AddrBlock(addrs); var list := AddrList(block[..|block| % 0x10000]);
            list.None? || list == Some([]) || (|addrs| > 0 && list == Some([addrs[0]]) && 1 <= |addrs[0]| <= 65533)
  {
    if addrs != [] && |addrs[0]| <= MaxUint16 {
      var a := addrs[0];
      var block := AddrBlock(addrs);
      assert AddrBlock([a]) == block;
      if 1 <= |a| <= 65533 {
        OneAddress(a);
      } else if |a| == 0 {
        Wire.Wraps16(0);
        assert block[..2] == Wire.Put(2, 0);
      } else {
        assert |block| % 0x10000 <= 1;
      }
    }
  }

  /** The wire form carries exactly the announcements with a name that fits and at most one address, non-empty
      and leaving room for its length. */
  lemma RoundTripIff(a: Announcement)
    requires a.Sized()
    ensures Decode(Encode(a)) == Some(a)
            <==> |a.name| <= MaxUint16 && (a.addrs == [] || (|a.addrs| == 1 && 1 <= |a.addrs[0]| <= 65533))
  {
    var name, block := CutName(a.name), AddrBlock(a.addrs);
    DecodeEncoded(a, name, block);
    FirstAddressOnly(a.addrs);
    if |a.addrs| == 1 && 1 <= |a.addrs[0]| <= 65533 {
      assert a.addrs == [a.addrs[0]];
      OneAddress(a.addrs[0]);
    }
  }

  // An announcement on the wire with any number of addresses.
  function WireForm(a: Announcement): bytes
    requires a.Sized()
  {
    a.pubKey + a.nonce + [a.difficulty] + Wire.Put(2, |a.name|) + a.name + Wire.Put(2, |Framed(a.addrs)|) + Framed(a.addrs)
  }

  // Every length fits its field.
  predicate Fitting(a: Announcement) {
    a.Sized() && |a.name| <= MaxUint16 && Framable(a.addrs) && |Framed(a.addrs)| <= MaxUint16
  }

  // The data as its six fields, two lengths and what is left over.
  ghost predicate Fields(data: bytes, key: bytes, nonce: bytes, d: byte, name: bytes, block: bytes, tail: bytes) {
    && |key| == 32 && |nonce| == 8 && |name| <= MaxUint16 && |block| <= MaxUint16
    && data == key + nonce + [d] + Wire.Put(2, |name|) + name + Wire.Put(2, |block|) + block + tail
  }

  lemma {:induction false} FieldsAt(data: bytes, key: bytes, nonce: bytes, d: byte, name: bytes, block: bytes, tail: bytes, n: nat, m: nat)
    requires Fields(data, key, nonce, d, name, block, tail) && n == |name| && m == |block|
    ensures |data| == 45 + n + m + |tail| && data[..32] == key && data[32..40] == nonce && data[40] == d
    ensures Wire.Get(data[41..43]) == n && data[43..43 + n] == name
    ensures Wire.Get(data[43 + n..45 + n]) == m && data[45 + n..45 + n + m] == block
  {
    var q3 := key + nonce + [d];
    var q5 := q3 + Wire.Put(2, n) + name;
    var q6 := q5 + Wire.Put(2, m);
    Wire.Field(q6, block, data);
    Wire.Field16(q5, m, data);
    NameAt(data, q3, name, n);
    FrontAt(data, key, nonce, d);
  }

  lemma {:induction false} NameAt(data: bytes, q: bytes, name: bytes, n: nat)
    requires q + Wire.Put(2, n) + name <= data && n == |name| <= MaxUint16
    ensures |q| + 2 + n <= |data| && Wire.Get(data[|q|..|q| + 2]) == n && data[|q| + 2..|q| + 2 + n] == name && q <= data
  {
    Wire.Field(q + Wire.Put(2, n), name, data);
    Wire.Field16(q, n, data);
  }

  lemma {:induction false} FrontAt(data: bytes, key: bytes, nonce: bytes, d: byte)
    requires |key| == 32 && |nonce| == 8 && key + nonce + [d] <= data
    ensures |data| >= 41 && data[..32] == key && data[32..40] == nonce && data[40] == d
  {
    Wire.Field(key + nonce, [d], data);
    Wire.Field(key, nonce, data);
    assert data[40] == data[40..41][0];
  }

  lemma {:induction false} Upto(data: bytes, a: nat, b: nat)
    requires a <= b <= |data|
    ensures data[..a] + data[a..b] == data[..b]
  {
  }

  lemma {:induction false} FieldsOf(data: bytes, n: nat, m: nat)
    requires |data| >= 45 + n + m && n == Wire.Get(data[41..43]) && m == Wire.Get(data[43 + n..45 + n])
    ensures Fields(data, data[..32], data[32..40], data[40], data[43..43 + n], data[45 + n..45 + n + m], data[45 + n + m..])
  {
    var x, y := data[41..43], data[43 + n..45 + n];
    var name, block, tail := data[43..43 + n], data[45 + n..45 + n + m], data[45 + n + m..];
    LengthWritten(x, n);
    LengthWritten(y, m);
    Pieces(data, n, m, x, y);
    FieldsFrom(data, data[..32], data[32..40], data[40], x, name, y, block, tail);
  }

  lemma {:induction false} FieldsFrom(data: bytes, key: bytes, nonce: bytes, d: byte, x: bytes, name: bytes, y: bytes, block: bytes, tail: bytes)
    requires |key| == 32 && |nonce| == 8 && |name| <= MaxUint16 && |block| <= MaxUint16
    requires x == Wire.Put(2, |name|) && y == Wire.Put(2, |block|) && data == key + nonce + [d] + x + name + y + block + tail
    ensures Fields(data, key, nonce, d, name, block, tail)
  {
  }

  lemma {:induction false} Pieces(data: bytes, n: nat, m: nat, x: bytes, y: bytes)
    requires |data| >= 45 + n + m && x == data[41..43] && y == data[43 + n..45 + n]
    ensures data == data[..32] + data[32..40] + [data[40]] + x + data[43..43 + n] + y + data[45 + n..45 + n + m] + data[45 + n + m..]
  {
    Upto(data, 32, 40);
    Upto(data, 40, 41);
    Upto(data, 41, 43);
    Upto(data, 43, 43 + n);
    Upto(data, 43 + n, 45 + n);
    Upto(data, 45 + n, 45 + n + m);
    assert data[40..41] == [data[40]];
    assert data[..45 + n + m] + data[45 + n + m..] == data;
  }

  lemma {:induction false} LengthWritten(s: bytes, n: nat)
    requires |s| == 2 && n == Wire.Get(s)
    ensures n <= MaxUint16 && Wire.Put(2, n) == s
  {
    assert s == [s[0], s[1]];
    Wire.Get2(s[0], s[1]);
    Wire.Put2(n);
  }

  lemma {:induction false} DecodeOf(data: bytes, key: bytes, nonce: bytes, d: byte, name: bytes, block: bytes, tail: bytes)
    requires Fields(data, key, nonce, d, name, block, tail)
    ensures Decode(data) == if AddrList(block).None? then None else Some(Announcement(key, nonce, d, name, AddrList(block).value))
  {
    FieldsAt(data, key, nonce, d, name, block, tail, |name|, |block|);
  }

  lemma {:induction false} DecodeForm(data: bytes, a: Announcement, tail: bytes)
    requires Fitting(a) && data == WireForm(a) + tail
    ensures Decode(data) == Some(a)
  {
    FramedRead(a.addrs);
    DecodeOf(data, a.pubKey, a.nonce, a.difficulty, a.name, Framed(a.addrs), tail);
  }

  lemma {:induction false} FormDecoded(data: bytes, a: Announcement)
    requires Decode(data) == Some(a)
    ensures Fitting(a) && WireForm(a) <= data
  {
    var n := Wire.Get(data[41..43]);
    var m := Wire.Get(data[43 + n..45 + n]);
    FieldsOf(data, n, m);
    ReadFramed(data[45 + n..45 + n + m], a.addrs);
    assert data == WireForm(a) + data[45 + n + m..];
  }

  /** Any data decodes to exactly the announcement whose wire form, with any number of addresses, it begins with;
      anything else is refused, and what follows is ignored. */
  lemma {:induction false} DecodeIff(data: bytes, a: Announcement)
    ensures Decode(data) == Some(a) <==> Fitting(a) && WireForm(a) <= data
  {
    if Fitting(a) && WireForm(a) <= data {
      DecodeForm(data, a, data[|WireForm(a)|..]);
    }
    if Decode(data) == Some(a) {
      FormDecoded(data, a);
    }
  }

  // ---------- the gate ----------

  /** The ID a public key hashes to. */
  function IdOf(h: Merkle.Hash, pubKey: bytes): NodeId {
    h(pubKey)
  }

  predicate Admissible(h: Merkle.Hash, src: NodeId, payload: bytes) {
    var d := Decode(payload);
    d.Some? && VerifyPoW(h, Challenge(d.value.pubKey, d.value.name, d.value.addrs), d.value.nonce, d.value.difficulty)
    && src == IdOf(h, d.value.pubKey)
  }

  // The time a peer that was never seen carries: the zero time, before every cutoff.
  const NeverSeen := 0

  /** handleMessage for a registration: enters the peer exactly when the payload parses, the work checks
      out and the sender's ID is its key's hash. A known peer is rewritten, its last-seen time wiped, and the
      table left as it is; a new one joins its bucket if there is room. */
  method HandleRegister(node: Node, h: Merkle.Hash, src: NodeId, payload: bytes, now: int)
    requires node.Valid()
    modifies node, node.peers.Values
    ensures node.Valid()
    ensures forall id :: id in old(node.peers) ==> id in node.peers && node.peers[id] == old(node.peers)[id]
    ensures Admissible(h, src, payload) ==> var a := Decode(payload).value; var b := BucketIndex(src);
            var joins := src !in old(node.peers) && |old(node.buckets)[b]| < KBucketSize;
            && node.peers.Keys == old(node.peers).Keys + {src}
            && node.peers[src].info == PeerInfo(src, a.pubKey, a.name, a.addrs, if joins then now else NeverSeen)
            && node.buckets == if joins then old(node.buckets)[b := old(node.buckets)[b] + [node.peers[src]]] else old(node.buckets)
    ensures forall id :: id in node.peers ==> node.peers[id] in old(node.peers).Values || fresh(node.peers[id])
    ensures node.TableIds() == old(node.TableIds()) +
              if Admissible(h, src, payload) && src !in old(node.peers) && |old(node.buckets)[BucketIndex(src)]| < KBucketSize then {src} else {}
    ensures !Admissible(h, src, payload) ==> node.peers == old(node.peers) && node.buckets == old(node.buckets)
                                             && forall p :: p in old(node.peers).Values ==> p.info == old(p.info)
  {
    var d := Decode(payload);
    if d.None? {
      return;
    }
    var a := d.value;
    if !VerifyPoW(h, Challenge(a.pubKey, a.name, a.addrs), a.nonce, a.difficulty) {
      return;
    }
    if src != IdOf(h, a.pubKey) {
      return;
    }
    node.StorePeer(PeerInfo(src, a.pubKey, a.name, a.addrs, NeverSeen), now);
  }

  /** A registered peer is in the table after the next pruning if and only if it was unknown, found room and
      registered in time: a known one has lost its last-seen time. */
  method RegisterThenPrune(node: Node, h: Merkle.Hash, src: NodeId, payload: bytes, now: int, cutoff: int)
    requires node.Valid() && Admissible(h, src, payload) && cutoff > NeverSeen
    modifies node, node.peers.Values
    ensures node.Valid() && node.peers.Keys == old(node.peers).Keys + {src}
    ensures forall id :: id in old(node.peers) ==> node.peers[id] == old(node.peers)[id]
    ensures src in node.TableIds() <==> src !in old(node.peers) && |old(node.buckets)[BucketIndex(src)]| < KBucketSize && now >= cutoff
  {
    assert src in node.TableIds() ==> src in node.peers;
    HandleRegister(node, h, src, payload, now);
    var removed := node.PruneStale(cutoff);
  }

  /** So a known peer that registers again is dropped by the next pruning, and registering once more does not
      bring it back. */
  method RegisterAgain(node: Node, h: Merkle.Hash, src: NodeId, payload: bytes, now: int, cutoff: int)
    requires node.Valid() && src in node.peers && Admissible(h, src, payload) && cutoff > NeverSeen
    modifies node, node.peers.Values
    ensures node.Valid() && src in node.peers && src !in node.TableIds()
  {
    RegisterThenPrune(node, h, src, payload, now, cutoff);
    assert node.peers == old(node.peers);
    HandleRegister(node, h, src, payload, now);
  }

  /** An announcement that its wire form carries is admitted, as it is, if and only if it comes from the ID its key
      hashes to and pays: a difficulty of 8 to 24, and as many zero bits at the front of the hash of key, name,
      address behind its length, and nonce. */
  lemma PaidAnnouncementAdmitted(h: Merkle.Hash, a: Announcement, src: NodeId)
    requires a.Sized()
    requires |a.name| <= MaxUint16 && (a.addrs == [] || (|a.addrs| == 1 && 1 <= |a.addrs[0]| <= 65533))
    ensures Decode(Encode(a)) == Some(a)
    ensures var addr := if a.addrs == [] then [] else [|a.addrs[0]| % 256] + a.addrs[0];
            Admissible(h, src, Encode(a)) <==>
              src == h(a.pubKey) && 8 <= a.difficulty <= 24 && LeadingZeros.Count(h(a.pubKey + a.name + addr + a.nonce)) >= a.difficulty
  {
    RoundTripIff(a);
    if a.addrs != [] {
      AddrFront(a.addrs);
      assert a.addrs[1..] == [];
    }
    var addr := if a.addrs == [] then [] else [|a.addrs[0]| % 256] + a.addrs[0];
    assert AddrBytes(a.addrs) == addr;
    if 8 <= a.difficulty <= 24 {
      WorkIsLeadingZeros(h, Challenge(a.pubKey, a.name, a.addrs), a.nonce, a.difficulty);
    }
  }

  /** An ID is admitted under one key only, if the two keys do not collide. */
  lemma OneKeyPerId(h: Merkle.Hash, src: NodeId, p: bytes, q: bytes)
    requires Admissible(h, src, p) && Admissible(h, src, q)
    requires h(Decode(p).value.pubKey) == h(Decode(q).value.pubKey) ==> Decode(p).value.pubKey == Decode(q).value.pubKey
    ensures Decode(p).value.pubKey == Decode(q).value.pubKey
  {
  }
}
