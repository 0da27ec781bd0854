/** Length-prefixed strings, and the binary form of the observed-remove set, on values. */
module CrdtFormat {
  import opened Bytes
  import opened Wire
  import opened Codec
  import OrSetModel

  // ---------- strings ----------

  function Zeros(n: nat): (z: bytes)
    ensures |z| == n
  {
    if n == 0 then [] else [0] + Zeros(n - 1)
  }

  /** A read into n fresh bytes from what is left of the buffer: short data leaves zeros, no data at all is
      an error unless nothing was asked for. */
  function Chunk(data: bytes, off: nat, n: nat): (r: Outcome<bytes>)
    ensures r.Done? ==> |r.value| == n && off <= r.next && (off <= |data| ==> r.next <= |data|)
  {
    if off >= |data| then if n == 0 then Done([], off) else Fail
    else
      var m := if n <= |data| - off then n else |data| - off;
      Done(data[off..off + m] + Zeros(n - m), off + m)
  }

  function ReadString(data: bytes, off: nat): Outcome<bytes> {
    if off + 2 > |data| then Fail else Chunk(data, off + 2, U16(data, off))
  }

  function EncodeString(s: bytes): bytes { Put(2, |s|) + s }

  predicate Short(s: bytes) { |s| < 0x10000 }

  lemma ChunkExact(data: bytes, off: nat, x: bytes)
    requires Has(data, off, x)
    ensures Chunk(data, off, |x|) == Done(x, off + |x|)
  {
    assert x + [] == x;
  }

  lemma StringRoundTrip(data: bytes, off: nat, s: bytes)
    requires Has(data, off, EncodeString(s))
    ensures ReadBack(ReadString(data, off), s, Short(s), off + |EncodeString(s)|)
  {
    HasBoth(data, off, Put(2, |s|), s);
    Has16(data, off, |s|);
    if Short(s) {
      ChunkExact(data, off + 2, s);
    }
  }

  lemma {:induction false} ZerosAre(n: nat)
    ensures forall i :: 0 <= i < n ==> Zeros(n)[i] == 0
  {
    if n > 0 {
      ZerosAre(n - 1);
      assert forall i :: 1 <= i < n ==> Zeros(n)[i] == Zeros(n - 1)[i - 1];
    }
  }

  /** A string cut short, in data of any kind: with some of it left, zero bytes stand in for the rest and no error is
      raised; with none of it left, reading fails; and so it does without a whole length. */
  lemma StringCut(data: bytes, off: nat, n: nat, part: bytes)
    requires n < 0x10000 && |part| < n && off + 2 <= |data|
    requires U16(data, off) == n && data[off + 2..] == part
    ensures part == [] ==> ReadString(data, off) == Fail
    ensures part != [] ==> var r := ReadString(data, off);
            && r.Done? && r.next == |data| && |r.value| == n && r.value[..|part|] == part
            && forall i :: |part| <= i < n ==> r.value[i] == 0
  {
    ZerosAre(n - |part|);
    if part != [] {
      var x := part + Zeros(n - |part|);
      assert forall i :: |part| <= i < n ==> x[i] == Zeros(n - |part|)[i - |part|];
    }
  }

  function StringsOf(data: bytes): nat -> Outcome<bytes> { (off: nat) => ReadString(data, off) }
  function EncodeStrings(): bytes -> bytes { (s: bytes) => EncodeString(s) }
  function Shorts(): bytes -> bool { (s: bytes) => Short(s) }

  lemma StringsInvert(data: bytes)
    ensures Inverts(data, StringsOf(data), EncodeStrings(), Shorts()) && Brings(StringsOf(data), |data|, Shorts())
  {
    forall s: bytes, off: nat ensures InvertsAt(data, StringsOf(data), EncodeStrings(), Shorts(), s, off) {
      if Has(data, off, EncodeString(s)) {
        StringRoundTrip(data, off, s);
      }
    }
  }

  // ---------- one element with its tags ----------

  datatype Entry = Entry(elem: bytes, tags: seq<bytes>)

  function ReadEntry(data: bytes, off: nat): Outcome<Entry> {
    var elem := ReadString(data, off);
    if !elem.Done? || elem.next + 2 > |data| then Fail
    else
      var tags := ReadMany(StringsOf(data), elem.next + 2, U16(data, elem.next));
      if !tags.Done? then Fail else Done(Entry(elem.value, tags.value), tags.next)
  }

  function EncodeEntry(e: Entry): bytes { EncodeString(e.elem) + Put(2, |e.tags|) + EncodeMany(EncodeStrings(), e.tags) }

  predicate GoodEntry(e: Entry) { Short(e.elem) && GoodSection(Shorts(), e.tags) }

  lemma EntryRead(data: bytes, off: nat, e: Entry, mid: nat, end: nat)
    requires ReadBack(ReadString(data, off), e.elem, Short(e.elem), mid)
    requires mid + 2 <= |data| && U16(data, mid) == |e.tags| % 0x10000
    requires ReadBack(ReadMany(StringsOf(data), mid + 2, |e.tags| % 0x10000), e.tags, GoodSection(Shorts(), e.tags), end)
    ensures ReadBack(ReadEntry(data, off), e, GoodEntry(e), end)
  {
  }

  lemma TagsBack(data: bytes, off: nat, tags: seq<bytes>, code: bytes)
    requires code == EncodeMany(EncodeStrings(), tags) && Has(data, off, code)
    ensures ReadBack(ReadMany(StringsOf(data), off, |tags| % 0x10000), tags, GoodSection(Shorts(), tags), off + |code|)
  {
    StringsInvert(data);
    SectionRead(data, StringsOf(data), EncodeStrings(), Shorts(), off, tags);
  }

  lemma EntryPieces(data: bytes, off: nat, e: Entry, s: bytes, tags: bytes)
    requires s == EncodeString(e.elem) && Has(data, off, s + Put(2, |e.tags|) + tags)
    ensures Has(data, off + |s| + 2, tags) && U16(data, off + |s|) == |e.tags| % 0x10000
    ensures ReadBack(ReadString(data, off), e.elem, Short(e.elem), off + |s|)
  {
    var n := Put(2, |e.tags|);
    HasBoth(data, off, s + n, tags);
    HasBoth(data, off, s, n);
    StringRoundTrip(data, off, e.elem);
    Has16(data, off + |s|, |e.tags|);
  }

  lemma EntryRoundTrip(data: bytes, off: nat, e: Entry)
    requires Has(data, off, EncodeEntry(e))
    ensures ReadBack(ReadEntry(data, off), e, GoodEntry(e), off + |EncodeEntry(e)|)
  {
    var s, tags := EncodeString(e.elem), EncodeMany(EncodeStrings(), e.tags);
    EntryPieces(data, off, e, s, tags);
    TagsBack(data, off + |s| + 2, e.tags, tags);
    EntryRead(data, off, e, off + |s|, off + |s| + 2 + |tags|);
  }

  lemma EntryBounds(data: bytes, off: nat)
    requires off <= |data| && ReadEntry(data, off).Done?
    ensures off <= ReadEntry(data, off).next <= |data| && GoodEntry(ReadEntry(data, off).value)
  {
    var elem := ReadString(data, off);
    StringsInvert(data);
    ManyBrings(StringsOf(data), |data|, Shorts(), elem.next + 2, U16(data, elem.next));
  }

  function EntriesOf(data: bytes): nat -> Outcome<Entry> { (off: nat) => ReadEntry(data, off) }
  function EncodeEntriesOf(): Entry -> bytes { (e: Entry) => EncodeEntry(e) }
  function GoodEntries(): Entry -> bool { (e: Entry) => GoodEntry(e) }

  lemma EntryInverts(data: bytes, e: Entry, off: nat)
    ensures InvertsAt(data, EntriesOf(data), EncodeEntriesOf(), GoodEntries(), e, off)
  {
    if Has(data, off, EncodeEntry(e)) {
      EntryRoundTrip(data, off, e);
    }
  }

  lemma EntriesInvert(data: bytes)
    ensures Inverts(data, EntriesOf(data), EncodeEntriesOf(), GoodEntries()) && Brings(EntriesOf(data), |data|, GoodEntries())
  {
    forall e: Entry, off: nat ensures InvertsAt(data, EntriesOf(data), EncodeEntriesOf(), GoodEntries(), e, off) {
      EntryInverts(data, e, off);
    }
    forall off: nat | off <= |data| && EntriesOf(data)(off).Done?
      ensures off <= EntriesOf(data)(off).next <= |data| && GoodEntries()(EntriesOf(data)(off).value)
    {
      EntryBounds(data, off);
    }
  }

  // ---------- the set ----------

  datatype Lists = Lists(entries: seq<Entry>, removes: seq<bytes>)

  function DecodeWith(data: bytes, entry: nat -> Outcome<Entry>, text: nat -> Outcome<bytes>): Outcome<Lists> {
    if 4 > |data| then Fail
    else
      var es := ReadMany(entry, 4, U32(data, 0));
      if !es.Done? || es.next + 4 > |data| then Fail
      else
        var rs := ReadMany(text, es.next + 4, U32(data, es.next));
        if !rs.Done? then Fail else Done(Lists(es.value, rs.value), rs.next)
  }

  function DecodeEntries(data: bytes): Outcome<Lists> { DecodeWith(data, EntriesOf(data), StringsOf(data)) }

  function EncodeWith(l: Lists, entry: Entry -> bytes, text: bytes -> bytes): bytes {
    Put(4, |l.entries|) + EncodeMany(entry, l.entries) + Put(4, |l.removes|) + EncodeMany(text, l.removes)
  }

  function EncodeEntries(l: Lists): bytes { EncodeWith(l, EncodeEntriesOf(), EncodeStrings()) }

  predicate GoodLists(l: Lists) {
    |l.entries| < 0x1_0000_0000 && All(GoodEntries(), l.entries) && |l.removes| < 0x1_0000_0000 && All(Shorts(), l.removes)
  }

  lemma SetPieces(data: bytes, n: bytes, es: bytes, m: bytes, rs: bytes)
    requires data == n + es + m + rs
    ensures Has(data, 0, n) && Has(data, |n|, es) && Has(data, |n| + |es|, m) && Has(data, |n| + |es| + |m|, rs)
    ensures |data| == |n| + |es| + |m| + |rs|
  {
    assert data[0..|data|] == data;
    HasBoth(data, 0, n + es + m, rs);
    HasBoth(data, 0, n + es, m);
    HasBoth(data, 0, n, es);
  }

  lemma ListsRead(data: bytes, l: Lists, entry: nat -> Outcome<Entry>, text: nat -> Outcome<bytes>, mid: nat, end: nat)
    requires |data| >= 4 && U32(data, 0) == |l.entries| && ReadMany(entry, 4, |l.entries|) == Done(l.entries, mid)
    requires mid + 4 <= |data| && U32(data, mid) == |l.removes| && ReadMany(text, mid + 4, |l.removes|) == Done(l.removes, end)
    ensures DecodeWith(data, entry, text) == Done(l, end)
  {
  }

  lemma ListsBack(data: bytes, l: Lists, entry: nat -> Outcome<Entry>, text: nat -> Outcome<bytes>,
                  encodeE: Entry -> bytes, encodeS: bytes -> bytes, goodE: Entry -> bool, goodS: bytes -> bool)
    requires Inverts(data, entry, encodeE, goodE) && Inverts(data, text, encodeS, goodS)
    requires |l.entries| < 0x1_0000_0000 && All(goodE, l.entries) && |l.removes| < 0x1_0000_0000 && All(goodS, l.removes)
    requires data == EncodeWith(l, encodeE, encodeS)
    ensures DecodeWith(data, entry, text) == Done(l, |data|)
  {
    var n, es, m, rs := Put(4, |l.entries|), EncodeMany(encodeE, l.entries), Put(4, |l.removes|), EncodeMany(encodeS, l.removes);
    SetPieces(data, n, es, m, rs);
    Has32(data, 0, |l.entries|);
    Has32(data, 4 + |es|, |l.removes|);
    ManyRoundTrip(data, entry, encodeE, goodE, 4, l.entries);
    ManyRoundTrip(data, text, encodeS, goodS, 8 + |es|, l.removes);
    ListsRead(data, l, entry, text, 4 + |es|, |data|);
  }

  lemma ListsRoundTrip(l: Lists)
    requires GoodLists(l)
    ensures DecodeEntries(EncodeEntries(l)) == Done(l, |EncodeEntries(l)|)
  {
    var data := EncodeEntries(l);
    EntriesInvert(data);
    StringsInvert(data);
    ListsBack(data, l, EntriesOf(data), StringsOf(data), EncodeEntriesOf(), EncodeStrings(), GoodEntries(), Shorts());
  }

  // Whatever the data, what is decoded fits.
  lemma DecodedGood(data: bytes)
    requires DecodeEntries(data).Done?
    ensures GoodLists(DecodeEntries(data).value)
  {
    EntriesInvert(data);
    StringsInvert(data);
    ManyBrings(EntriesOf(data), |data|, GoodEntries(), 4, U32(data, 0));
    var mid := ReadMany(EntriesOf(data), 4, U32(data, 0)).next;
    ManyBrings(StringsOf(data), |data|, Shorts(), mid + 4, U32(data, mid));
  }

  // ---------- lists as the maps they enumerate ----------

  function SetOf(tags: seq<bytes>): set<bytes> { set t | t in tags }

  // A later entry for an element replaces an earlier one.
  function AddsOf(entries: seq<Entry>): map<bytes, set<bytes>> {
    if entries == [] then map[]
    else
      var e := entries[|entries| - 1];
      AddsOf(entries[..|entries| - 1])[e.elem := SetOf(e.tags)]
  }

  /** What Unmarshal makes of the data. */
  function Unmarshal(data: bytes): Outcome<OrSetModel.State> {
    var l := DecodeEntries(data);
    if !l.Done? then Fail else Done(OrSetModel.State(AddsOf(l.value.entries), SetOf(l.value.removes)), l.next)
  }

  // Each exactly once, in any order.
  ghost predicate Enumerates(items: seq<bytes>, all: set<bytes>) {
    SetOf(items) == all && |items| == |all|
  }

  ghost predicate EntriesEnumerate(entries: seq<Entry>, adds: map<bytes, set<bytes>>) {
    && (forall k :: 0 <= k < |entries| ==> entries[k].elem in adds && Enumerates(entries[k].tags, adds[entries[k].elem]))
    && (forall e :: e in adds ==> exists k :: 0 <= k < |entries| && entries[k].elem == e)
    && |entries| == |adds|
  }

  /** Some order in which the maps may be walked. */
  ghost predicate OrderOf(l: Lists, s: OrSetModel.State) {
    EntriesEnumerate(l.entries, s.adds) && Enumerates(l.removes, s.removes)
  }

  lemma {:induction false} AddsOfAt(entries: seq<Entry>, adds: map<bytes, set<bytes>>)
    requires forall k :: 0 <= k < |entries| ==> entries[k].elem in adds && SetOf(entries[k].tags) == adds[entries[k].elem]
    ensures forall e :: e in AddsOf(entries) <==> exists k :: 0 <= k < |entries| && entries[k].elem == e
    ensures forall e :: e in AddsOf(entries) ==> e in adds && AddsOf(entries)[e] == adds[e]
  {
    if entries != [] {
      var n := |entries| - 1;
      AddsOfAt(entries[..n], adds);
      forall e ensures e in AddsOf(entries) <==> exists k :: 0 <= k < |entries| && entries[k].elem == e {
        if k :| 0 <= k < |entries| && entries[k].elem == e {
          assert k < n ==> entries[..n][k].elem == e;
        }
        if e in AddsOf(entries[..n]) {
          var k :| 0 <= k < n && entries[..n][k].elem == e;
          assert entries[k].elem == e;
        }
        assert e == entries[n].elem ==> entries[n].elem == e;
      }
    }
  }

  lemma AddsOfAll(entries: seq<Entry>, adds: map<bytes, set<bytes>>)
    requires EntriesEnumerate(entries, adds)
    ensures AddsOf(entries) == adds
  {
    AddsOfAt(entries, adds);
    assert AddsOf(entries).Keys == adds.Keys;
  }

  lemma {:induction false} SetOfSize(items: seq<bytes>)
    ensures |SetOf(items)| <= |items|
  {
    if items != [] {
      var n := |items| - 1;
      SetOfSize(items[..n]);
      assert items == items[..n] + [items[n]];
      assert SetOf(items) == SetOf(items[..n]) + {items[n]};
    }
  }

  lemma {:induction false} AddsOfSize(entries: seq<Entry>)
    ensures |AddsOf(entries)| <= |entries|
  {
    if entries != [] {
      var n := |entries| - 1;
      AddsOfSize(entries[..n]);
      var before := AddsOf(entries[..n]);
      assert AddsOf(entries).Keys == before.Keys + {entries[n].elem};
      assert |AddsOf(entries).Keys| <= |before.Keys| + 1;
      assert |AddsOf(entries).Keys| == |AddsOf(entries)| && |before.Keys| == |before|;
    }
  }

  predicate ShortAll(tags: set<bytes>) { forall t :: t in tags ==> Short(t) }

  /** Everything fits its 16- or 32-bit length. */
  predicate FitsSet(s: OrSetModel.State) {
    && |s.adds| < 0x1_0000_0000 && |s.removes| < 0x1_0000_0000 && ShortAll(s.removes)
    && (forall e :: e in s.adds ==> Short(e) && |s.adds[e]| < 0x10000 && ShortAll(s.adds[e]))
  }

  lemma {:induction false} GoodEntriesFit(entries: seq<Entry>)
    requires All(GoodEntries(), entries)
    ensures forall e :: e in AddsOf(entries) ==> Short(e) && |AddsOf(entries)[e]| < 0x10000 && ShortAll(AddsOf(entries)[e])
  {
    if entries != [] {
      var n := |entries| - 1;
      var last := entries[n];
      assert GoodEntries()(last);
      forall k | 0 <= k < n ensures GoodEntries()(entries[..n][k]) {
        assert entries[..n][k] == entries[k];
      }
      GoodEntriesFit(entries[..n]);
      SetOfSize(last.tags);
      ShortSection(last.tags);
    }
  }

  lemma ShortSection(tags: seq<bytes>)
    requires All(Shorts(), tags)
    ensures ShortAll(SetOf(tags))
  {
    assert forall k :: 0 <= k < |tags| ==> Shorts()(tags[k]);
  }

  lemma GoodListsFit(l: Lists)
    requires GoodLists(l)
    ensures FitsSet(OrSetModel.State(AddsOf(l.entries), SetOf(l.removes)))
  {
    AddsOfSize(l.entries);
    SetOfSize(l.removes);
    GoodEntriesFit(l.entries);
    ShortSection(l.removes);
  }

  lemma FittingIsGood(l: Lists, s: OrSetModel.State)
    requires OrderOf(l, s) && FitsSet(s)
    ensures GoodLists(l)
  {
    forall k | 0 <= k < |l.removes| ensures Shorts()(l.removes[k]) {
      assert l.removes[k] in SetOf(l.removes);
    }
    forall k | 0 <= k < |l.entries| ensures GoodEntries()(l.entries[k]) {
      var e := l.entries[k];
      forall j | 0 <= j < |e.tags| ensures Shorts()(e.tags[j]) {
        assert e.tags[j] in SetOf(e.tags);
      }
    }
  }

  /** Decoding undoes encoding, whatever order the maps are walked in, exactly when everything fits. */
  lemma SetRoundTripIff(l: Lists, s: OrSetModel.State)
    requires OrderOf(l, s)
    ensures if FitsSet(s) then Unmarshal(EncodeEntries(l)) == Done(s, |EncodeEntries(l)|)
            else Unmarshal(EncodeEntries(l)).Done? ==> Unmarshal(EncodeEntries(l)).value != s
  {
    var data := EncodeEntries(l);
    if FitsSet(s) {
      FittingIsGood(l, s);
      ListsRoundTrip(l);
      AddsOfAll(l.entries, s.adds);
    } else if DecodeEntries(data).Done? {
      DecodedGood(data);
      GoodListsFit(DecodeEntries(data).value);
    }
  }
}
