/** The encoders and decoders as the program runs them, filling or draining a buffer in loops. */
module CrdtCodec {
  import opened Bytes
  import opened Wire
  import opened Codec
  import opened CrdtFormat
  import RgaFormat
  import RgaModel
  import OrSetModel

  type Elem = RgaModel.Elem

  // ---------- the observed-remove set ----------

  method AppendStrings(buf: bytes, items: seq<bytes>) returns (out: bytes)
    ensures out == buf + EncodeMany(EncodeStrings(), items)
  {
    out := buf;
    ghost var encode, whole := EncodeStrings(), buf + EncodeMany(EncodeStrings(), items);
    assert items[0..] == items;
    for i := 0 to |items|
      invariant out + EncodeMany(encode, items[i..]) == whole
    {
      AppendStep(out, encode, items, i, whole);
      out := out + EncodeString(items[i]);
    }
  }

  method AppendEntries(buf: bytes, entries: seq<Entry>) returns (out: bytes)
    ensures out == buf + EncodeMany(EncodeEntriesOf(), entries)
  {
    out := buf;
    ghost var encode, whole := EncodeEntriesOf(), buf + EncodeMany(EncodeEntriesOf(), entries);
    assert entries[0..] == entries;
    for i := 0 to |entries|
      invariant out + EncodeMany(encode, entries[i..]) == whole
    {
      AppendStep(out, encode, entries, i, whole);
      ghost var before := out;
      out := out + EncodeString(entries[i].elem);
      out := out + Put(2, |entries[i].tags|);
      out := AppendStrings(out, entries[i].tags);
      assert out == before + encode(entries[i]);
    }
  }

  method MarshalSet(l: Lists) returns (buf: bytes)
    ensures buf == EncodeEntries(l)
  {
    buf := Put(4, |l.entries|);
    buf := AppendEntries(buf, l.entries);
    buf := buf + Put(4, |l.removes|);
    buf := AppendStrings(buf, l.removes);
  }

  method ReadStrings(data: bytes, offset: nat, count: nat) returns (r: Outcome<seq<bytes>>)
    ensures r == ReadMany(StringsOf(data), offset, count)
  {
    var items: seq<bytes>, off := [], offset;
    ghost var read, whole := StringsOf(data), ReadMany(StringsOf(data), offset, count);
    ManyStart(whole);
    for i := 0 to count
      invariant whole == Prefixed(items, ReadMany(read, off, count - i))
    {
      ManyStep(read, items, off, count - i);
      var s := ReadString(data, off);
      if !s.Done? {
        return Fail;
      }
      items := items + [s.value];
      off := s.next;
    }
    assert items + [] == items;
    return Done(items, off);
  }

  method ReadEntryAt(data: bytes, off: nat) returns (r: Outcome<Entry>)
    ensures r == ReadEntry(data, off)
  {
    var elem := ReadString(data, off);
    if !elem.Done? || elem.next + 2 > |data| {
      return Fail;
    }
    var tags := ReadStrings(data, elem.next + 2, U16(data, elem.next));
    if !tags.Done? {
      return Fail;
    }
    return Done(Entry(elem.value, tags.value), tags.next);
  }

  method ReadEntries(data: bytes, offset: nat, count: nat) returns (r: Outcome<seq<Entry>>)
    ensures r == ReadMany(EntriesOf(data), offset, count)
  {
    var items: seq<Entry>, off := [], offset;
    ghost var read, whole := EntriesOf(data), ReadMany(EntriesOf(data), offset, count);
    ManyStart(whole);
    for i := 0 to count
      invariant whole == Prefixed(items, ReadMany(read, off, count - i))
    {
      ManyStep(read, items, off, count - i);
      var e := ReadEntryAt(data, off);
      if !e.Done? {
        return Fail;
      }
      items := items + [e.value];
      off := e.next;
    }
    assert items + [] == items;
    return Done(items, off);
  }

  method UnmarshalSet(data: bytes) returns (r: Outcome<OrSetModel.State>)
    ensures r == Unmarshal(data)
  {
    if 4 > |data| {
      return Fail;
    }
    var es := ReadEntries(data, 4, U32(data, 0));
    if !es.Done? || es.next + 4 > |data| {
      return Fail;
    }
    var rs := ReadStrings(data, es.next + 4, U32(data, es.next));
    if !rs.Done? {
      return Fail;
    }
    var adds: map<bytes, set<bytes>> := map[];
    var entries := es.value;
    for i := 0 to |entries|
      invariant adds == AddsOf(entries[..i])
    {
      assert entries[..i + 1][..i] == entries[..i];
      adds := adds[entries[i].elem := SetOf(entries[i].tags)];
    }
    assert entries[..|entries|] == entries;
    return Done(OrSetModel.State(adds, SetOf(rs.value)), rs.next);
  }

  // ---------- the replicated list ----------

  method EncodeRGAList(nodes: seq<Elem>) returns (buf: bytes)
    ensures buf == RgaFormat.EncodeRGAList(nodes)
  {
    buf := Put(2, |nodes|);
    ghost var encode, whole := RgaFormat.EncodeNodes(), RgaFormat.EncodeRGAList(nodes);
    assert nodes[0..] == nodes;
    for i := 0 to |nodes|
      invariant buf + EncodeMany(encode, nodes[i..]) == whole
    {
      AppendStep(buf, encode, nodes, i, whole);
      buf := AppendNode(buf, nodes[i]);
    }
  }

  method AppendNode(buf: bytes, n: Elem) returns (out: bytes)
    ensures out == buf + RgaFormat.EncodeNode(n)
  {
    out := buf + EncodeString(n.id);
    out := out + EncodeString(n.value);
    assert out == buf + RgaFormat.EncodeFront(n);
    var back := RgaFormat.EncodeTime(n.ts);
    back := back + EncodeString(n.author);
    var deleted: byte := 0;
    if n.deleted {
      deleted := 1;
    }
    back := back + [deleted];
    if n.origin != [] {
      back := back + EncodeString(n.origin);
    }
    assert back == RgaFormat.EncodeBack(n);
    out := out + back;
  }

  method DecodeRGAList(data: bytes) returns (r: Outcome<seq<Elem>>)
    ensures r == RgaFormat.DecodeRGAList(data)
  {
    if |data| < 2 {
      return Fail;
    }
    r := ReadNodes(data, 2, U16(data, 0), RgaFormat.NodesOf(data));
  }

  ghost predicate ReadsNodes(data: bytes, read: nat -> Outcome<Elem>) {
    forall off: nat {:trigger RgaFormat.ReadNode(data, off)} :: read(off) == RgaFormat.ReadNode(data, off)
  }

  method ReadNodes(data: bytes, offset: nat, count: nat, ghost read: nat -> Outcome<Elem>) returns (r: Outcome<seq<Elem>>)
    requires ReadsNodes(data, read)
    ensures r == ReadMany(read, offset, count)
  {
    var nodes: seq<Elem>, off := [], offset;
    ghost var whole := ReadMany(read, offset, count);
    ManyStart(whole);
    for i := 0 to count
      invariant whole == Prefixed(nodes, ReadMany(read, off, count - i))
    {
      var n := NextNode(data, nodes, off, count - i, read, whole);
      if !n.Done? {
        return Fail;
      }
      nodes := nodes + [n.value];
      off := n.next;
    }
    assert nodes + [] == nodes;
    return Done(nodes, off);
  }

  // One turn of that loop.
  method NextNode(data: bytes, nodes: seq<Elem>, off: nat, left: nat, ghost read: nat -> Outcome<Elem>, ghost whole: Outcome<seq<Elem>>)
    returns (n: Outcome<Elem>)
    requires left > 0 && ReadsNodes(data, read) && whole == Prefixed(nodes, ReadMany(read, off, left))
    ensures n.Done? ==> whole == Prefixed(nodes + [n.value], ReadMany(read, n.next, left - 1))
    ensures !n.Done? ==> whole == Fail
  {
    ManyStep(read, nodes, off, left);
    n := DecodeNode(data, off);
  }

  method DecodeNode(data: bytes, offset: nat) returns (r: Outcome<Elem>)
    ensures r == RgaFormat.ReadNode(data, offset)
  {
    var id := ReadString(data, offset);
    if !id.Done? {
      return Fail;
    }
    var value := ReadString(data, id.next);
    if !value.Done? || value.next + 8 > |data| {
      return Fail;
    }
    var ts := RgaFormat.Time(data, value.next);
    var author := ReadString(data, value.next + 8);
    if !author.Done? {
      return Fail;
    }
    var off := author.next;
    var deleted, origin := false, [];
    if off < |data| {
      deleted := data[off] == 1;
      off := off + 1;
      if off < |data| {
        if off + 2 > |data| {
          off := |data|;
        } else {
          var len := U16(data, off);
          off := off + 2;
          if len > 0 {
            var ob := Chunk(data, off, len);
            if ob.Done? {
              origin, off := ob.value, ob.next;
            }
          }
        }
      }
    }
    return Done(RgaModel.Elem(id.value, value.value, ts, author.value, deleted, origin), off);
  }
}
