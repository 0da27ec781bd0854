/** The parser and the printer as the program runs them: loops that advance an offset or append to a buffer. */
module DnsCodec {
  import opened Bytes
  import opened Wire
  import opened Codec
  import N = DnsNames
  import D = Dns

  // ---------- names ----------

  // One turn of each loop, on values.

  lemma JoinStep(out: bytes, parts: seq<bytes>, whole: bytes)
    requires parts != [] && out + N.JoinName(parts) == whole
    ensures |parts| > 1 ==> out + parts[0] + [N.Dot] + N.JoinName(parts[1..]) == whole
    ensures |parts| == 1 ==> out + parts[0] == whole
  {
    Regroup(out, parts[0], [N.Dot], N.JoinName(parts[1..]));
  }

  lemma Regroup(a: bytes, b: bytes, c: bytes, d: bytes)
    ensures a + (b + c + d) == a + b + c + d
  {
  }

  method JoinName(parts: seq<bytes>) returns (out: bytes)
    ensures out == N.JoinName(parts)
  {
    out := [];
    for i := 0 to |parts|
      invariant out + N.JoinName(parts[i..]) == N.JoinName(parts)
    {
      JoinStep(out, parts[i..], N.JoinName(parts));
      assert parts[i..][1..] == parts[i + 1..];
      out := out + parts[i];
      if i < |parts| - 1 {
        out := out + [N.Dot];
      }
    }
  }

  lemma SplitStep(name: bytes, start: nat, i: nat)
    requires start <= i < |name| && name[i] == N.Dot && forall k :: start <= k < i ==> name[k] != N.Dot
    ensures N.SplitName(name[start..]) == [name[start..i]] + N.SplitName(name[i + 1..])
  {
    var s, d := name[start..], i - start;
    NoDots(name, start, i, s);
    SplitAtDot(s, d);
    assert s[..d] == name[start..i] && s[d + 1..] == name[i + 1..];
  }

  lemma NoDots(name: bytes, start: nat, i: nat, s: bytes)
    requires start <= i <= |name| && s == name[start..] && forall k :: start <= k < i ==> name[k] != N.Dot
    ensures forall k :: 0 <= k < i - start ==> s[k] != N.Dot
  {
    assert forall k :: 0 <= k < i - start ==> s[k] == name[start + k];
  }

  lemma SplitAtDot(s: bytes, d: nat)
    requires d < |s| && s[d] == N.Dot && forall k :: 0 <= k < d ==> s[k] != N.Dot
    ensures N.SplitName(s) == [s[..d]] + N.SplitName(s[d + 1..])
  {
    assert N.DotAt(s) == d;
  }

  // The parts so far and those of the rest of the name are all its parts.
  ghost predicate SplitSoFar(name: bytes, start: nat, parts: seq<bytes>, whole: seq<bytes>)
    requires start <= |name|
  {
    whole == parts + N.SplitName(name[start..])
  }

  lemma SplitStart(name: bytes)
    ensures SplitSoFar(name, 0, [], N.SplitName(name))
  {
    assert name[0..] == name;
  }

  lemma SplitNext(name: bytes, start: nat, i: nat, parts: seq<bytes>, whole: seq<bytes>)
    requires start <= i < |name| && name[i] == N.Dot && forall k :: start <= k < i ==> name[k] != N.Dot
    requires SplitSoFar(name, start, parts, whole)
    ensures SplitSoFar(name, i + 1, parts + [name[start..i]], whole)
  {
    SplitStep(name, start, i);
    SeqStep(parts, name[start..i], N.SplitName(name[i + 1..]));
  }

  lemma SplitTail(name: bytes, start: nat, parts: seq<bytes>, whole: seq<bytes>)
    requires start <= |name| && (forall k :: start <= k < |name| ==> name[k] != N.Dot) && SplitSoFar(name, start, parts, whole)
    ensures whole == if start < |name| then parts + [name[start..]] else parts
  {
    NoDots(name, start, |name|, name[start..]);
    SplitEnd(name[start..]);
  }

  lemma SplitEnd(name: bytes)
    requires forall k :: 0 <= k < |name| ==> name[k] != N.Dot
    ensures N.SplitName(name) == if name == [] then [] else [name]
  {
  }

  method SplitName(name: bytes) returns (parts: seq<bytes>)
    ensures parts == N.SplitName(name)
  {
    parts := [];
    var start := 0;
    ghost var whole := N.SplitName(name);
    SplitStart(name);
    for i := 0 to |name|
      invariant 0 <= start <= i
      invariant forall k :: start <= k < i ==> name[k] != N.Dot
      invariant SplitSoFar(name, start, parts, whole)
    {
      if name[i] == N.Dot {
        SplitNext(name, start, i, parts, whole);
        parts := parts + [name[start..i]];
        start := i + 1;
      }
    }
    SplitTail(name, start, parts, whole);
    if start < |name| {
      parts := parts + [name[start..]];
    }
  }

  lemma EncodeStep(buf: bytes, parts: seq<bytes>, i: nat, whole: bytes)
    requires i < |parts| && whole == buf + N.EncodeParts(parts[i..])
    ensures whole == buf + [|parts[i]| % 256] + parts[i] + N.EncodeParts(parts[i + 1..])
  {
    assert parts[i..][1..] == parts[i + 1..];
    var a: bytes, b, c := [|parts[i]| % 256], parts[i], N.EncodeParts(parts[i + 1..]);
    assert buf + (a + b + c) == buf + a + b + c;
  }

  method EncodeName(name: bytes) returns (buf: bytes)
    ensures buf == N.EncodeName(name)
  {
    var s := name;
    if |s| > 0 && s[|s| - 1] == N.Dot {
      s := s[..|s| - 1];
    }
    var parts := SplitName(s);
    buf := [];
    ghost var whole := N.EncodeParts(parts);
    assert parts[0..] == parts;
    for i := 0 to |parts|
      invariant whole == buf + N.EncodeParts(parts[i..])
    {
      EncodeStep(buf, parts, i, whole);
      buf := buf + [|parts[i]| % 256];
      buf := buf + parts[i];
    }
    buf := buf + [0];
  }

  /** Reads until a zero byte, a pointer or the end of the data; `hops` bounds the pointers followed. */
  method ReadName(data: bytes, offset: nat, ghost hops: nat) returns (r: Outcome<bytes>)
    requires !N.ReadName(data, offset, hops).Diverges?
    ensures r == N.ReadName(data, offset, hops)
    decreases hops
  {
    var parts: seq<bytes> := [];
    var off := offset;
    ghost var whole := N.ReadParts(data, offset, hops);
    PrefixedStep([], [], whole);
    while off < |data|
      invariant whole == Prefixed(parts, N.ReadParts(data, off, hops))
      decreases |data| - off
    {
      var length := data[off];
      assert parts + [] == parts;
      if length == 0 {
        off := off + 1;
        break;
      }
      if length >= 0xC0 {
        if off + 1 >= |data| {
          return Fail;
        }
        var target := N.Target(data, off);
        var name := ReadName(data, target, hops - 1);
        if name.Fail? {
          return Fail;
        }
        parts := parts + [name.value];
        off := off + 2;
        break;
      }
      off := off + 1;
      if off + length > |data| {
        return Fail;
      }
      PrefixedStep(parts, data[off..off + length], N.ReadParts(data, off + length, hops));
      parts := parts + [data[off..off + length]];
      off := off + length;
    }
    assert parts + [] == parts;
    assert whole == Done(parts, off);
    var joined := JoinName(parts);
    return Done(joined, off);
  }

  // ---------- items ----------

  method ReadRecord(data: bytes, offset: nat) returns (r: Outcome<D.Record>)
    requires !D.ReadRecord(data, offset).Diverges?
    ensures r == D.ReadRecord(data, offset)
  {
    var name := ReadName(data, offset, N.Enough(data));
    if name.Fail? {
      return Fail;
    }
    var off := name.next;
    if off + 10 > |data| {
      return Fail;
    }
    var rtype, rclass, ttl := U16(data, off), U16(data, off + 2), U32(data, off + 4);
    off := off + 8;
    var rdlen := U16(data, off);
    off := off + 2;
    if off + rdlen > |data| {
      return Fail;
    }
    return Done(D.Record(name.value, rtype, rclass, ttl, rdlen, data[off..off + rdlen]), off + rdlen);
  }

  method ReadQuestion(data: bytes, offset: nat) returns (r: Outcome<D.Question>)
    requires !D.ReadQuestion(data, offset).Diverges?
    ensures r == D.ReadQuestion(data, offset)
  {
    var name := ReadName(data, offset, N.Enough(data));
    if name.Fail? {
      return Fail;
    }
    var off := name.next;
    if off + 4 > |data| {
      return Fail;
    }
    return Done(D.Question(name.value, U16(data, off), U16(data, off + 2)), off + 4);
  }

  method ReadQuestions(data: bytes, offset: nat, count: nat) returns (r: Outcome<seq<D.Question>>)
    requires !ReadMany(D.QuestionsOf(data), offset, count).Diverges?
    ensures r == ReadMany(D.QuestionsOf(data), offset, count)
  {
    var items: seq<D.Question>, off := [], offset;
    ghost var read, whole := D.QuestionsOf(data), ReadMany(D.QuestionsOf(data), offset, count);
    ManyStart(whole);
    for i := 0 to count
      invariant whole == Prefixed(items, ReadMany(read, off, count - i))
    {
      ManyStep(read, items, off, count - i);
      var q := ReadQuestion(data, off);
      if q.Fail? {
        return Fail;
      }
      items := items + [q.value];
      off := q.next;
    }
    assert items + [] == items;
    return Done(items, off);
  }

  method ReadRecords(data: bytes, offset: nat, count: nat) returns (r: Outcome<seq<D.Record>>)
    requires !ReadMany(D.RecordsOf(data), offset, count).Diverges?
    ensures r == ReadMany(D.RecordsOf(data), offset, count)
  {
    var items: seq<D.Record>, off := [], offset;
    ghost var read, whole := D.RecordsOf(data), ReadMany(D.RecordsOf(data), offset, count);
    ManyStart(whole);
    for i := 0 to count
      invariant whole == Prefixed(items, ReadMany(read, off, count - i))
    {
      ManyStep(read, items, off, count - i);
      var rr := ReadRecord(data, off);
      if rr.Fail? {
        return Fail;
      }
      items := items + [rr.value];
      off := rr.next;
    }
    assert items + [] == items;
    return Done(items, off);
  }

  // ---------- messages ----------

  method ParseMessage(data: bytes) returns (r: Outcome<D.Message>)
    requires !D.ParseMessage(data).Diverges?
    ensures r == D.ParseMessage(data)
  {
    if |data| < 12 {
      return Fail;
    }
    var h := D.ReadHeader(data);
    var qs := ReadQuestions(data, 12, h.qdCount);
    if qs.Fail? {
      return Fail;
    }
    var an := ReadRecords(data, qs.next, h.anCount);
    if an.Fail? {
      return Fail;
    }
    var ns := ReadRecords(data, an.next, h.nsCount);
    if ns.Fail? {
      return Fail;
    }
    var ar := ReadRecords(data, ns.next, h.arCount);
    if ar.Fail? {
      return Fail;
    }
    return Done(D.Message(h, qs.value, an.value, ns.value, ar.value), ar.next);
  }

  method AppendRecord(buf: bytes, r: D.Record) returns (out: bytes)
    ensures out == buf + D.EncodeRecord(r)
  {
    var name := EncodeName(r.name);
    out := buf + name;
    out := out + Put(2, r.rtype) + Put(2, r.rclass);
    out := out + Put(4, r.ttl);
    out := out + Put(2, |r.rdata|);
    out := out + r.rdata;
  }

  method AppendRecords(buf: bytes, records: seq<D.Record>) returns (out: bytes)
    ensures out == buf + EncodeMany(D.EncodeRecords(), records)
  {
    out := buf;
    ghost var encode, whole := D.EncodeRecords(), buf + EncodeMany(D.EncodeRecords(), records);
    assert records[0..] == records;
    for i := 0 to |records|
      invariant out + EncodeMany(encode, records[i..]) == whole
    {
      AppendStep(out, encode, records, i, whole);
      out := AppendRecord(out, records[i]);
    }
  }

  method AppendQuestion(buf: bytes, q: D.Question) returns (out: bytes)
    ensures out == buf + D.EncodeQuestion(q)
  {
    var name := EncodeName(q.name);
    out := buf + name;
    out := out + Put(2, q.qtype) + Put(2, q.qclass);
  }

  method AppendQuestions(buf: bytes, questions: seq<D.Question>) returns (out: bytes)
    ensures out == buf + EncodeMany(D.EncodeQuestions(), questions)
  {
    out := buf;
    ghost var encode, whole := D.EncodeQuestions(), buf + EncodeMany(D.EncodeQuestions(), questions);
    assert questions[0..] == questions;
    for i := 0 to |questions|
      invariant out + EncodeMany(encode, questions[i..]) == whole
    {
      AppendStep(out, encode, questions, i, whole);
      out := AppendQuestion(out, questions[i]);
    }
  }

  method SerializeMessage(m: D.Message) returns (buf: bytes)
    ensures buf == D.SerializeMessage(m)
  {
    buf := D.EncodeHeader(m);
    buf := AppendQuestions(buf, m.questions);
    buf := AppendRecords(buf, m.answers);
    buf := AppendRecords(buf, m.authorities);
    buf := AppendRecords(buf, m.additionals);
  }
}
