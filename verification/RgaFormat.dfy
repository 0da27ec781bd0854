/** The binary form of the replicated list: nodes in document order, the origin a trailing field that is
    left out when empty. */
module RgaFormat {
  import opened Bytes
  import opened Wire
  import opened Codec
  import opened CrdtFormat
  import RgaModel

  type Elem = RgaModel.Elem

  // ---------- timestamps ----------

  const Half: int := 0x8000_0000_0000_0000

  predicate Int64(n: int) { -Half <= n < Half }

  // Two's complement.
  function EncodeTime(t: int): bytes { Put(8, t % (2 * Half)) }

  function Time(data: bytes, off: nat): int
    requires off + 8 <= |data|
  {
    var n := Get(data[off..off + 8]);
    if n < Half then n else n - 2 * Half
  }

  lemma Range8()
    ensures Range(8) == 2 * Half
  {
    assert Range(1) == 256 && Range(2) == 0x10000 && Range(3) == 0x100_0000 && Range(4) == 0x1_0000_0000;
    assert Range(5) == 0x100_0000_0000 && Range(6) == 0x1_0000_0000_0000 && Range(7) == 0x100_0000_0000_0000;
  }

  lemma TimeRead(data: bytes, off: nat, t: int)
    requires Int64(t) && Has(data, off, EncodeTime(t))
    ensures Time(data, off) == t
  {
    Range8();
    Fits(8, t % (2 * Half));
  }

  // ---------- one node ----------

  function Flag(deleted: bool): bytes { if deleted then [1] else [0] }

  function EncodeOrigin(origin: bytes): bytes { if origin == [] then [] else EncodeString(origin) }

  function EncodeFront(n: Elem): bytes { EncodeString(n.id) + EncodeString(n.value) }

  function EncodeBack(n: Elem): bytes { EncodeTime(n.ts) + EncodeString(n.author) + Flag(n.deleted) + EncodeOrigin(n.origin) }

  function EncodeNode(n: Elem): bytes { EncodeFront(n) + EncodeBack(n) }

  /** The trailing field: errors in it are ignored and leave it empty. */
  function ReadOrigin(data: bytes, off: nat): (bytes, nat) {
    if off >= |data| then ([], off)
    else if off + 2 > |data| then ([], |data|)
    else
      var origin := Chunk(data, off + 2, U16(data, off));
      if origin.Done? then (origin.value, origin.next) else ([], off + 2)
  }

  // A missing flag byte reads as zero.
  function ReadTail(data: bytes, off: nat): (bool, bytes, nat) {
    if off >= |data| then (false, [], off)
    else var (origin, next) := ReadOrigin(data, off + 1); (data[off] == 1, origin, next)
  }

  function ReadNode(data: bytes, off: nat): Outcome<Elem> {
    var id := ReadString(data, off);
    if !id.Done? then Fail
    else
      var value := ReadString(data, id.next);
      if !value.Done? || value.next + 8 > |data| then Fail
      else
        var author := ReadString(data, value.next + 8);
        if !author.Done? then Fail
        else
          var (deleted, origin, next) := ReadTail(data, author.next);
          Done(RgaModel.Elem(id.value, value.value, Time(data, value.next), author.value, deleted, origin), next)
  }

  /** The end of a node in any data: deleted means a flag byte of one; an origin is there if any of its bytes are, zeros
      standing in for those cut off, and is empty, without an error, if the data ends before. */
  lemma {:induction false} TailRead(data: bytes, off: nat)
    ensures var (deleted, origin, next) := ReadTail(data, off);
            && (deleted <==> off < |data| && data[off] == 1)
            && (off + 1 >= |data| ==> origin == [] && next == if off < |data| then off + 1 else off)
            && (off + 2 == |data| ==> origin == [] && next == |data|)
            && (off + 3 <= |data| ==>
                  var n, left := U16(data, off + 1), |data| - off - 3;
                  && (n <= left ==> origin == data[off + 3..off + 3 + n] && next == off + 3 + n)
                  && (left == 0 ==> origin == [] && next == |data|)
                  && (0 < left < n ==> |origin| == n && origin[..left] == data[off + 3..] && next == |data|
                                       && forall i :: left <= i < n ==> origin[i] == 0))
  {
    if off + 3 <= |data| {
      var n, left := U16(data, off + 1), |data| - off - 3;
      if 0 < left < n {
        StringCut(data, off + 1, n, data[off + 3..]);
      } else if n <= left {
        assert data[off + 3..off + 3 + n] + [] == data[off + 3..off + 3 + n];
      }
    }
  }

  /** Every field fits its 16-bit length. */
  predicate FitsNode(n: Elem) { Short(n.id) && Short(n.value) && Short(n.author) && Short(n.origin) }

  lemma StringBack(data: bytes, off: nat, s: bytes)
    requires Short(s) && Has(data, off, EncodeString(s))
    ensures ReadString(data, off) == Done(s, off + 2 + |s|)
  {
    StringRoundTrip(data, off, s);
  }

  lemma FrontBack(data: bytes, off: nat, n: Elem)
    requires Short(n.id) && Short(n.value) && Has(data, off, EncodeFront(n))
    ensures ReadString(data, off) == Done(n.id, off + 2 + |n.id|)
    ensures ReadString(data, off + 2 + |n.id|) == Done(n.value, off + 2 + |n.id| + 2 + |n.value|)
  {
    HasBoth(data, off, EncodeString(n.id), EncodeString(n.value));
    StringBack(data, off, n.id);
    StringBack(data, off + 2 + |n.id|, n.value);
  }

  lemma BackBack(data: bytes, t: nat, n: Elem, o: nat)
    requires Int64(n.ts) && Short(n.author) && Has(data, t, EncodeBack(n)) && o == t + 8 + 2 + |n.author| + 1
    ensures o <= |data| && Time(data, t) == n.ts && ReadString(data, t + 8) == Done(n.author, o - 1)
    ensures data[o - 1] == (if n.deleted then 1 else 0) && Has(data, o, EncodeOrigin(n.origin))
  {
    var ts, author, flag, origin := EncodeTime(n.ts), EncodeString(n.author), Flag(n.deleted), EncodeOrigin(n.origin);
    HasBoth(data, t, ts + author + flag, origin);
    HasBoth(data, t, ts + author, flag);
    HasBoth(data, t, ts, author);
    TimeRead(data, t, n.ts);
    StringBack(data, t + 8, n.author);
    assert data[o - 1] == data[o - 1..o][0];
  }

  // From the fields to the node.
  lemma NodeFields(data: bytes, off: nat, n: Elem, v: nat, t: nat, a: nat)
    requires ReadString(data, off) == Done(n.id, v) && ReadString(data, v) == Done(n.value, t)
    requires t + 8 <= |data| && Time(data, t) == n.ts && ReadString(data, t + 8) == Done(n.author, a)
    requires a < |data| && data[a] == if n.deleted then 1 else 0
    ensures ReadNode(data, off) == Done(n.(origin := ReadOrigin(data, a + 1).0), ReadOrigin(data, a + 1).1)
  {
  }

  // Where the origin of a node is.
  function OriginAt(off: nat, n: Elem): nat { off + 2 + |n.id| + 2 + |n.value| + 8 + 2 + |n.author| + 1 }

  lemma NodeLength(n: Elem, off: nat)
    ensures |EncodeFront(n)| == 4 + |n.id| + |n.value|
    ensures off + |EncodeNode(n)| == OriginAt(off, n) + |EncodeOrigin(n.origin)|
  {
  }

  // Up to the origin, a node that fits is read back whatever follows.
  lemma NodeRead(data: bytes, off: nat, n: Elem, o: nat)
    requires Int64(n.ts) && FitsNode(n) && Has(data, off, EncodeNode(n)) && o == OriginAt(off, n)
    ensures ReadNode(data, off) == Done(n.(origin := ReadOrigin(data, o).0), ReadOrigin(data, o).1)
    ensures Has(data, o, EncodeOrigin(n.origin))
  {
    var v := off + 2 + |n.id|;
    var t := v + 2 + |n.value|;
    NodeHalves(data, off, n, t);
    HalvesRead(data, off, n, v, t, o);
  }

  lemma HalvesRead(data: bytes, off: nat, n: Elem, v: nat, t: nat, o: nat)
    requires Int64(n.ts) && FitsNode(n) && Has(data, off, EncodeFront(n)) && Has(data, t, EncodeBack(n))
    requires v == off + 2 + |n.id| && t == v + 2 + |n.value| && o == t + 8 + 2 + |n.author| + 1
    ensures ReadNode(data, off) == Done(n.(origin := ReadOrigin(data, o).0), ReadOrigin(data, o).1)
    ensures Has(data, o, EncodeOrigin(n.origin))
  {
    FrontBack(data, off, n);
    BackBack(data, t, n, o);
    NodeFields(data, off, n, v, t, o - 1);
  }

  lemma NodeHalves(data: bytes, off: nat, n: Elem, t: nat)
    requires Has(data, off, EncodeNode(n)) && t == off + 4 + |n.id| + |n.value|
    ensures Has(data, off, EncodeFront(n)) && Has(data, t, EncodeBack(n))
  {
    HasBoth(data, off, EncodeFront(n), EncodeBack(n));
    NodeLength(n, off);
  }

  lemma OriginRead(data: bytes, o: nat, origin: bytes)
    requires origin != [] && Short(origin) && Has(data, o, EncodeString(origin))
    ensures ReadOrigin(data, o) == (origin, o + |EncodeString(origin)|)
  {
    StringRoundTrip(data, o, origin);
  }

  lemma NodeBounds(data: bytes, off: nat)
    requires off <= |data| && ReadNode(data, off).Done?
    ensures off <= ReadNode(data, off).next <= |data| && FitsNode(ReadNode(data, off).value)
  {
  }

  // ---------- the list ----------

  function NodesOf(data: bytes): nat -> Outcome<Elem> { (off: nat) => ReadNode(data, off) }

  function EncodeNodes(): Elem -> bytes { (n: Elem) => EncodeNode(n) }

  function EncodeRGAList(nodes: seq<Elem>): bytes { Put(2, |nodes|) + EncodeMany(EncodeNodes(), nodes) }

  // The timestamps are 64-bit integers.
  predicate Timed(nodes: seq<Elem>) { forall k :: 0 <= k < |nodes| ==> Int64(nodes[k].ts) }

  function DecodeRGAList(data: bytes): Outcome<seq<Elem>> {
    if |data| < 2 then Fail else ReadMany(NodesOf(data), 2, U16(data, 0))
  }

  predicate FitsAll(nodes: seq<Elem>) { forall k :: 0 <= k < |nodes| ==> FitsNode(nodes[k]) }

  /** Only the last node may lack an origin. */
  predicate OriginsKnown(nodes: seq<Elem>) { forall k :: 0 <= k < |nodes| - 1 ==> nodes[k].origin != [] }

  lemma KnownFirst(nodes: seq<Elem>)
    requires nodes != []
    ensures OriginsKnown(nodes) <==> (|nodes| == 1 || nodes[0].origin != []) && OriginsKnown(nodes[1..])
  {
    assert nodes == [nodes[0]] + nodes[1..];
  }

  // ---------- what comes back ----------

  // A node with an origin, or with nothing behind it, is read back.
  lemma NodeBack(data: bytes, off: nat, n: Elem)
    requires Int64(n.ts) && FitsNode(n) && Has(data, off, EncodeNode(n))
    requires n.origin != [] || off + |EncodeNode(n)| == |data|
    ensures ReadNode(data, off) == Done(n, off + |EncodeNode(n)|)
  {
    var o := OriginAt(off, n);
    NodeLength(n, off);
    NodeRead(data, off, n, o);
    if n.origin != [] {
      OriginRead(data, o, n.origin);
    }
  }

  /** The encoding of the nodes is what is left of the data. */
  ghost predicate Placed(data: bytes, encode: Elem -> bytes, off: nat, nodes: seq<Elem>) {
    Has(data, off, EncodeMany(encode, nodes)) && off + |EncodeMany(encode, nodes)| == |data|
  }

  lemma PlacedRest(data: bytes, encode: Elem -> bytes, off: nat, nodes: seq<Elem>)
    requires Placed(data, encode, off, nodes) && nodes != []
    ensures Has(data, off, encode(nodes[0])) && Placed(data, encode, off + |encode(nodes[0])|, nodes[1..])
    ensures |nodes| == 1 ==> off + |encode(nodes[0])| == |data|
  {
    HasBoth(data, off, encode(nodes[0]), EncodeMany(encode, nodes[1..]));
  }

  // Wherever the data has such a node, it is read back.
  ghost predicate BackAt(data: bytes, read: nat -> Outcome<Elem>, encode: Elem -> bytes, off: nat, n: Elem) {
    Int64(n.ts) && FitsNode(n) && Has(data, off, encode(n)) && (n.origin != [] || off + |encode(n)| == |data|) ==>
      read(off) == Done(n, off + |encode(n)|)
  }

  ghost predicate Backs(data: bytes, read: nat -> Outcome<Elem>, encode: Elem -> bytes) {
    forall off: nat, n: Elem :: BackAt(data, read, encode, off, n)
  }

  lemma NodesBack(data: bytes)
    ensures Backs(data, NodesOf(data), EncodeNodes())
  {
    forall off: nat, n: Elem ensures BackAt(data, NodesOf(data), EncodeNodes(), off, n) {
      if Int64(n.ts) && FitsNode(n) && Has(data, off, EncodeNode(n)) && (n.origin != [] || off + |EncodeNode(n)| == |data|) {
        NodeBack(data, off, n);
      }
    }
  }

  lemma {:induction false} NodesRead(data: bytes, read: nat -> Outcome<Elem>, encode: Elem -> bytes, off: nat, nodes: seq<Elem>)
    requires Backs(data, read, encode) && Placed(data, encode, off, nodes)
    requires Timed(nodes) && FitsAll(nodes) && OriginsKnown(nodes)
    ensures ReadMany(read, off, |nodes|) == Done(nodes, |data|)
    decreases |nodes|
  {
    if nodes != [] {
      var mid := off + |encode(nodes[0])|;
      PlacedRest(data, encode, off, nodes);
      KnownFirst(nodes);
      assert BackAt(data, read, encode, off, nodes[0]);
      NodesRead(data, read, encode, mid, nodes[1..]);
      OneMore(read, off, nodes, mid, |data|);
    }
  }

  lemma OneMore(read: nat -> Outcome<Elem>, off: nat, nodes: seq<Elem>, mid: nat, end: nat)
    requires nodes != []
    ensures ReadMany(read, off, |nodes|) == Done(nodes, end) && read(off).Done? && read(off).next == mid
            <==> read(off) == Done(nodes[0], mid) && ReadMany(read, mid, |nodes| - 1) == Done(nodes[1..], end)
  {
    assert nodes == [nodes[0]] + nodes[1..];
    var r := ReadMany(read, off, |nodes|);
    if r.Done? {
      var rest := ReadMany(read, read(off).next, |nodes| - 1);
      assert r.value[0] == read(off).value && r.value[1..] == rest.value;
    }
  }

  // ---------- what does not ----------

  // A node behind which more can be read took its fields in full, and the length of an origin too.
  lemma NodeTakes(data: bytes, off: nat)
    requires ReadNode(data, off).Done? && ReadNode(data, off).next + 2 <= |data|
    ensures var n := ReadNode(data, off).value; ReadNode(data, off).next == OriginAt(off, n) + 2 + |n.origin|
  {
  }

  // A string that is read back from inside itself, with zeros behind it, consists of zeros.
  lemma {:induction false} OverlapZero(data: bytes, s: nat, x: bytes, d: nat, i: nat)
    requires d > 0 && Has(data, s, x) && (forall j :: s + |x| <= j < |data| ==> data[j] == 0)
    requires Chunk(data, s + d, |x|).Done? && Chunk(data, s + d, |x|).value == x && i < |x|
    ensures x[i] == 0
    decreases |x| - i
  {
    PaddedAt(data, s + d, |x|, i);
    if i + d < |x| {
      OverlapZero(data, s, x, d, i + d);
      assert data[s + d + i] == data[s..s + |x|][i + d];
    }
  }

  lemma PaddedAt(data: bytes, off: nat, n: nat, i: nat)
    requires Chunk(data, off, n).Done? && i < n
    ensures Chunk(data, off, n).value[i] == if off + i < |data| then data[off + i] else 0
  {
    var m := if n <= |data| - off then n else |data| - off;
    if i >= m {
      ZerosAt(n - m, i - m);
    }
  }

  lemma {:induction false} ZerosAt(n: nat, i: nat)
    requires i < n
    ensures Zeros(n)[i] == 0
  {
    if i > 0 {
      ZerosAt(n - 1, i - 1);
    }
  }

  // Then so does its length.
  lemma OverlapEmpty(data: bytes, off: nat, x: bytes, d: nat)
    requires d >= 2 && Has(data, off, EncodeString(x)) && (forall j :: off + 2 + |x| <= j < |data| ==> data[j] == 0)
    requires ReadString(data, off + d).Done? && ReadString(data, off + d).value == x
    ensures x == []
  {
    HasBoth(data, off, Put(2, |x|), x);
    assert U16(data, off + d) == |x|;
    ZeroAt(data, off + 2, x, d, off + d);
    ZeroAt(data, off + 2, x, d, off + d + 1);
    assert data[off + d..off + d + 2] == [0, 0];
    Get2(0, 0);
  }

  lemma ZeroAt(data: bytes, s: nat, x: bytes, d: nat, j: nat)
    requires d > 0 && Has(data, s, x) && (forall j :: s + |x| <= j < |data| ==> data[j] == 0)
    requires Chunk(data, s + d, |x|).Done? && Chunk(data, s + d, |x|).value == x && s <= j < |data|
    ensures data[j] == 0
  {
    if j < s + |x| {
      OverlapZero(data, s, x, d, j - s);
      assert data[j] == data[s..s + |x|][j - s];
    }
  }

  lemma OriginShifted(data: bytes, o: nat, origin: bytes, d: nat)
    requires d >= 2 && origin != [] && Has(data, o, EncodeOrigin(origin)) && o + |EncodeOrigin(origin)| == |data|
    ensures ReadString(data, o + d).Done? ==> ReadString(data, o + d).value != origin
  {
    if ReadString(data, o + d).Done? && ReadString(data, o + d).value == origin {
      OverlapEmpty(data, o, origin, d);
    }
  }

  lemma AuthorShifted(data: bytes, a: nat, author: bytes, flag: bool, d: nat)
    requires d >= 2 && Has(data, a, EncodeString(author)) && Has(data, a + 2 + |author|, Flag(flag)) && a + 3 + |author| == |data|
    ensures ReadString(data, a + d).Done? && ReadString(data, a + d).value == author ==> flag
  {
    if ReadString(data, a + d).Done? && ReadString(data, a + d).value == author && !flag {
      assert data[a + 2 + |author|] == data[a + 2 + |author|..|data|][0] == 0;
      OverlapEmpty(data, a, author, d);
      assert false;
    }
  }

  // The last node is not read back from further on.
  lemma LastShifted(data: bytes, off: nat, n: Elem, d: nat)
    requires d >= 2 && Has(data, off, EncodeNode(n)) && off + |EncodeNode(n)| == |data|
    ensures ReadNode(data, off + d).Done? ==> ReadNode(data, off + d).value != n
  {
    var a := off + 2 + |n.id| + 2 + |n.value| + 8;
    NodeLength(n, off);
    NodeHalves(data, off, n, a - 8);
    BackParts(data, a - 8, n, a + 2 + |n.author|);
    if n.origin != [] {
      OriginShifted(data, a + 2 + |n.author| + 1, n.origin, d);
    } else {
      AuthorShifted(data, a, n.author, n.deleted, d);
    }
    NotShifted(data, off, n, d, a);
  }

  lemma NotShifted(data: bytes, off: nat, n: Elem, d: nat, a: nat)
    requires a == off + 2 + |n.id| + 2 + |n.value| + 8 && d >= 2
    requires n.origin != [] ==> !(ReadString(data, a + 3 + |n.author| + d).Done? && ReadString(data, a + 3 + |n.author| + d).value == n.origin)
    requires n.origin == [] ==> a + 3 + |n.author| == |data|
    requires n.origin == [] ==> (ReadString(data, a + d).Done? && ReadString(data, a + d).value == n.author ==> n.deleted)
    ensures ReadNode(data, off + d).Done? ==> ReadNode(data, off + d).value != n
  {
    if ReadNode(data, off + d).Done? && ReadNode(data, off + d).value == n {
      ShiftedFields(data, off, n, d, a);
      assert false;
    }
  }

  lemma BackParts(data: bytes, t: nat, n: Elem, f: nat)
    requires Has(data, t, EncodeBack(n)) && f == t + 8 + 2 + |n.author|
    ensures Has(data, t + 8, EncodeString(n.author)) && Has(data, f, Flag(n.deleted)) && Has(data, f + 1, EncodeOrigin(n.origin))
  {
    var ts, author, flag, origin := EncodeTime(n.ts), EncodeString(n.author), Flag(n.deleted), EncodeOrigin(n.origin);
    HasBoth(data, t, ts + author + flag, origin);
    HasBoth(data, t, ts + author, flag);
    HasBoth(data, t, ts, author);
  }

  // What reading it there would take to give.
  lemma ShiftedFields(data: bytes, off: nat, n: Elem, d: nat, a: nat)
    requires ReadNode(data, off + d).Done? && ReadNode(data, off + d).value == n && a == off + 2 + |n.id| + 2 + |n.value| + 8
    ensures ReadString(data, a + d).Done? && ReadString(data, a + d).value == n.author
    ensures n.origin != [] ==> ReadString(data, a + 2 + |n.author| + 1 + d).Done? && ReadString(data, a + 2 + |n.author| + 1 + d).value == n.origin
    ensures a + d + 2 + |n.author| >= |data| ==> !n.deleted
  {
  }

  // A node read behind where the data has it is not the last, and takes two bytes more if it has no origin.
  ghost predicate DriftsAt(data: bytes, read: nat -> Outcome<Elem>, encode: Elem -> bytes, off: nat, from: nat, n: Elem) {
    read(from).Done? && read(from).value == n ==>
      && from + 2 <= |data|
      && (from >= off + 2 && Has(data, off, encode(n)) ==> off + |encode(n)| != |data|)
      && (read(from).next + 2 <= |data| ==> read(from).next == from + |encode(n)| + if n.origin == [] then 2 else 0)
  }

  ghost predicate Drifts(data: bytes, read: nat -> Outcome<Elem>, encode: Elem -> bytes) {
    forall off: nat, from: nat, n: Elem :: DriftsAt(data, read, encode, off, from, n)
  }

  lemma {:induction false} NotTheLast(data: bytes, off: nat, from: nat, n: Elem)
    requires ReadNode(data, from).Done? && ReadNode(data, from).value == n && from >= off + 2 && Has(data, off, EncodeNode(n))
    ensures off + |EncodeNode(n)| != |data|
  {
    if off + |EncodeNode(n)| == |data| {
      LastShifted(data, off, n, from - off);
      assert false;
    }
  }

  lemma {:induction false} StepLength(data: bytes, from: nat, n: Elem)
    requires ReadNode(data, from).Done? && ReadNode(data, from).value == n && ReadNode(data, from).next + 2 <= |data|
    ensures ReadNode(data, from).next == from + |EncodeNode(n)| + if n.origin == [] then 2 else 0
  {
    NodeLength(n, from);
    NodeTakes(data, from);
  }

  lemma {:induction false} NodeDrifts(data: bytes, off: nat, from: nat, n: Elem)
    ensures DriftsAt(data, NodesOf(data), EncodeNodes(), off, from, n)
  {
    if ReadNode(data, from).Done? && ReadNode(data, from).value == n {
      assert ReadString(data, from).Done?;
      if ReadNode(data, from).next + 2 <= |data| {
        StepLength(data, from, n);
      }
      if from >= off + 2 && Has(data, off, EncodeNode(n)) {
        NotTheLast(data, off, from, n);
      }
    }
  }

  lemma NodesOfDrift(data: bytes)
    ensures Drifts(data, NodesOf(data), EncodeNodes())
  {
    forall off: nat, from: nat, n: Elem ensures DriftsAt(data, NodesOf(data), EncodeNodes(), off, from, n) {
      NodeDrifts(data, off, from, n);
    }
  }

  // Each node without an origin moves the reader two bytes ahead of the nodes, and it never gets back.
  lemma {:induction false} NodesDrift(data: bytes, read: nat -> Outcome<Elem>, encode: Elem -> bytes, off: nat, from: nat, nodes: seq<Elem>, end: nat)
    requires Drifts(data, read, encode) && nodes != [] && Placed(data, encode, off, nodes) && (from == off || from >= off + 2)
    requires ReadMany(read, from, |nodes|) == Done(nodes, end)
    ensures from == off && OriginsKnown(nodes)
    decreases |nodes|
  {
    var n, next, rest := nodes[0], read(from).next, nodes[1..];
    PlacedRest(data, encode, off, nodes);
    OneMore(read, from, nodes, next, end);
    assert DriftsAt(data, read, encode, off, from, n);
    KnownFirst(nodes);
    if rest != [] {
      OneMore(read, next, rest, read(next).next, end);
      assert DriftsAt(data, read, encode, off, next, rest[0]);
      NodesDrift(data, read, encode, off + |encode(n)|, next, rest, end);
    }
  }

  // Whatever the data, what is decoded fits.
  lemma DecodedFits(data: bytes)
    requires DecodeRGAList(data).Done?
    ensures |DecodeRGAList(data).value| < 0x10000 && FitsAll(DecodeRGAList(data).value)
  {
    var fits := (n: Elem) => FitsNode(n);
    forall off: nat | off <= |data| && NodesOf(data)(off).Done?
      ensures off <= NodesOf(data)(off).next <= |data| && fits(NodesOf(data)(off).value)
    {
      NodeBounds(data, off);
    }
    ManyBrings(NodesOf(data), |data|, fits, 2, U16(data, 0));
    var nodes := DecodeRGAList(data).value;
    assert forall k :: 0 <= k < |nodes| ==> fits(nodes[k]);
  }

  lemma CountRead(data: bytes, n: nat, code: bytes)
    requires data == Put(2, n) + code && n < 0x10000
    ensures |data| == 2 + |code| && U16(data, 0) == n && Has(data, 2, code)
  {
    assert data[0..|data|] == data;
    HasBoth(data, 0, Put(2, n), code);
    Has16(data, 0, n);
  }

  /** Decoding undoes encoding if and only if the count and every field fit 16 bits and only the last node
      lacks an origin; otherwise an error or other nodes come back. */
  lemma ListRoundTripIff(nodes: seq<Elem>)
    requires Timed(nodes)
    ensures var r := DecodeRGAList(EncodeRGAList(nodes));
            if |nodes| < 0x10000 && FitsAll(nodes) && OriginsKnown(nodes) then r == Done(nodes, |EncodeRGAList(nodes)|)
            else r.Done? ==> r.value != nodes
  {
    var data := EncodeRGAList(nodes);
    var r := DecodeRGAList(data);
    if |nodes| < 0x10000 && FitsAll(nodes) {
      CountRead(data, |nodes|, EncodeMany(EncodeNodes(), nodes));
      if OriginsKnown(nodes) {
        NodesBack(data);
        NodesRead(data, NodesOf(data), EncodeNodes(), 2, nodes);
      } else if r.Done? && r.value == nodes {
        NodesOfDrift(data);
        NodesDrift(data, NodesOf(data), EncodeNodes(), 2, 2, nodes, r.next);
        assert false;
      }
    } else if r.Done? {
      DecodedFits(data);
    }
  }

  /** In a well-formed document whose nodes have IDs, such as any run of inserts, deletes and merges leaves, all
      have origins too: the encoding of its nodes is undone exactly when the count and the fields fit. */
  lemma DocumentRoundTripIff(s: RgaModel.Doc)
    requires RgaModel.WellFormed(s) && Timed(s) && forall k :: 0 <= k < |s| ==> s[k].id != []
    ensures var nodes := s[1..]; var r := DecodeRGAList(EncodeRGAList(nodes));
            if |nodes| < 0x10000 && FitsAll(nodes) then r == Done(nodes, |EncodeRGAList(nodes)|)
            else r.Done? ==> r.value != nodes
  {
    var nodes := s[1..];
    forall k | 0 <= k < |nodes| ensures nodes[k].origin != [] && Int64(nodes[k].ts) {
      assert nodes[k] == s[k + 1] && RgaModel.Par(s, k + 1) < k + 1;
    }
    ListRoundTripIff(nodes);
  }
}
