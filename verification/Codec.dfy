/** Readers over byte strings and what it means for them to undo a printer. */
module Codec {
  import opened Bytes
  import opened Wire

  type u16 = n: nat | n < 0x10000
  type u32 = n: nat | n < 0x1_0000_0000

  /** `Diverges`: the reader was still following pointers when the allowance ran out. */
  datatype Outcome<T> = Done(value: T, next: nat) | Fail | Diverges

  // What was already read, in front of what follows it.
  function Prefixed<T>(front: seq<T>, r: Outcome<seq<T>>): Outcome<seq<T>> {
    if r.Done? then Done(front + r.value, r.next) else r
  }

  function U16(data: bytes, off: nat): u16
    requires off + 2 <= |data|
  {
    GetBound(data[off..off + 2]);
    assert Range(1) == 256 && Range(2) == 0x10000;
    Get(data[off..off + 2])
  }

  function U32(data: bytes, off: nat): u32
    requires off + 4 <= |data|
  {
    GetBound(data[off..off + 4]);
    assert Range(1) == 256 && Range(2) == 0x10000 && Range(3) == 0x100_0000 && Range(4) == 0x1_0000_0000;
    Get(data[off..off + 4])
  }

  // Passes a failure on.
  function Failed<T, U>(r: Outcome<T>): Outcome<U>
    requires !r.Done?
  {
    if r.Fail? then Fail else Diverges
  }

  /** n items, one after another. */
  function ReadMany<T>(read: nat -> Outcome<T>, off: nat, n: nat): Outcome<seq<T>>
    decreases n
  {
    if n == 0 then Done([], off)
    else
      var first := read(off);
      if !first.Done? then Failed(first)
      else
        var others := ReadMany(read, first.next, n - 1);
        if !others.Done? then others else Done([first.value] + others.value, others.next)
  }

  function EncodeMany<T>(encode: T -> bytes, items: seq<T>): bytes {
    if items == [] then [] else encode(items[0]) + EncodeMany(encode, items[1..])
  }

  // ---------- where things are ----------

  /** The data has x at offset off. */
  ghost predicate Has(data: bytes, off: nat, x: bytes) {
    off + |x| <= |data| && data[off..off + |x|] == x
  }

  lemma HasBoth(data: bytes, off: nat, x: bytes, y: bytes)
    requires Has(data, off, x + y)
    ensures Has(data, off, x) && Has(data, off + |x|, y)
  {
    var both := data[off..off + |x + y|];
    assert both[..|x|] == x && both[|x|..] == y;
  }

  lemma Has16(data: bytes, off: nat, n: nat)
    requires Has(data, off, Put(2, n))
    ensures U16(data, off) == n % 0x10000
  {
    Wraps16(n);
  }

  lemma Has32(data: bytes, off: nat, n: u32)
    requires Has(data, off, Put(4, n))
    ensures U32(data, off) == n
  {
    assert Range(1) == 256 && Range(2) == 0x10000 && Range(3) == 0x100_0000 && Range(4) == 0x1_0000_0000;
    Fits(4, n);
  }

  // ---------- reading back ----------

  /** x is what was read, up to `next`, if it is good, and is not what was read if it is not. */
  ghost predicate ReadBack<T>(r: Outcome<T>, x: T, good: bool, next: nat) {
    if good then r == Done(x, next) else r.Done? ==> r.value != x
  }

  // Where the data has x, reading undoes encoding exactly if x is good.
  ghost predicate InvertsAt<T>(data: bytes, read: nat -> Outcome<T>, encode: T -> bytes, good: T -> bool, x: T, off: nat) {
    Has(data, off, encode(x)) ==> ReadBack(read(off), x, good(x), off + |encode(x)|)
  }

  ghost predicate Inverts<T(!new)>(data: bytes, read: nat -> Outcome<T>, encode: T -> bytes, good: T -> bool) {
    forall x: T, off: nat :: InvertsAt(data, read, encode, good, x, off)
  }

  lemma {:induction false} ManyLength<T>(read: nat -> Outcome<T>, off: nat, n: nat)
    ensures ReadMany(read, off, n).Done? ==> |ReadMany(read, off, n).value| == n
    decreases n
  {
    if n > 0 && read(off).Done? {
      ManyLength(read, read(off).next, n - 1);
    }
  }

  predicate All<T>(good: T -> bool, items: seq<T>) { forall k :: 0 <= k < |items| ==> good(items[k]) }

  lemma {:induction false} ManyRoundTrip<T(!new)>(data: bytes, read: nat -> Outcome<T>, encode: T -> bytes, good: T -> bool, off: nat, items: seq<T>)
    requires Inverts(data, read, encode, good) && Has(data, off, EncodeMany(encode, items))
    ensures ReadBack(ReadMany(read, off, |items|), items, All(good, items), off + |EncodeMany(encode, items)|)
    decreases |items|
  {
    if items != [] {
      var x, rest := items[0], items[1..];
      HasBoth(data, off, encode(x), EncodeMany(encode, rest));
      assert InvertsAt(data, read, encode, good, x, off);
      if good(x) {
        ManyRoundTrip(data, read, encode, good, off + |encode(x)|, rest);
      }
      AllFirst(good, items);
      FirstThenRest(read, off, items, good(x), off + |encode(x)|, All(good, rest), off + |encode(x)| + |EncodeMany(encode, rest)|);
    }
  }

  lemma AllFirst<T>(good: T -> bool, items: seq<T>)
    requires items != []
    ensures All(good, items) <==> good(items[0]) && All(good, items[1..])
  {
    assert items == [items[0]] + items[1..];
  }

  lemma FirstThenRest<T>(read: nat -> Outcome<T>, off: nat, items: seq<T>, good: bool, mid: nat, goodRest: bool, end: nat)
    requires items != [] && ReadBack(read(off), items[0], good, mid)
    requires good ==> ReadBack(ReadMany(read, mid, |items| - 1), items[1..], goodRest, end)
    ensures ReadBack(ReadMany(read, off, |items|), items, good && goodRest, end)
  {
    var r := ReadMany(read, off, |items|);
    assert items == [items[0]] + items[1..];
    if r.Done? {
      assert r.value[0] == read(off).value && r.value[1..] == ReadMany(read, read(off).next, |items| - 1).value;
    }
  }

  // A list whose length its 16-bit count tells.
  predicate GoodSection<T>(good: T -> bool, items: seq<T>) { |items| < 0x10000 && All(good, items) }

  lemma SectionRead<T(!new)>(data: bytes, read: nat -> Outcome<T>, encode: T -> bytes, good: T -> bool, off: nat, items: seq<T>)
    requires Inverts(data, read, encode, good) && Has(data, off, EncodeMany(encode, items))
    ensures ReadBack(ReadMany(read, off, |items| % 0x10000), items, GoodSection(good, items), off + |EncodeMany(encode, items)|)
  {
    ManyRoundTrip(data, read, encode, good, off, items);
    ManyLength(read, off, |items| % 0x10000);
  }

  // Reading stays inside the data and brings items with the property.
  ghost predicate Brings<T(!new)>(read: nat -> Outcome<T>, limit: nat, ok: T -> bool) {
    forall off: nat | off <= limit && read(off).Done? :: off <= read(off).next <= limit && ok(read(off).value)
  }

  lemma {:induction false} ManyBrings<T(!new)>(read: nat -> Outcome<T>, limit: nat, ok: T -> bool, off: nat, n: nat)
    requires Brings(read, limit, ok) && off <= limit && ReadMany(read, off, n).Done?
    ensures var r := ReadMany(read, off, n); off <= r.next <= limit && |r.value| == n && All(ok, r.value)
    decreases n
  {
    if n > 0 {
      ManyBrings(read, limit, ok, read(off).next, n - 1);
    }
  }

  // ---------- one turn of a loop ----------

  lemma SeqStep<T>(front: seq<T>, x: T, back: seq<T>)
    ensures front + ([x] + back) == front + [x] + back
  {
  }

  lemma PrefixedStep<T>(front: seq<T>, x: T, r: Outcome<seq<T>>)
    ensures Prefixed(front, Prefixed([x], r)) == Prefixed(front + [x], r)
    ensures Prefixed([], r) == r
  {
    if r.Done? {
      SeqStep(front, x, r.value);
      assert [] + r.value == r.value;
    }
  }

  lemma ManyStart<T>(r: Outcome<seq<T>>)
    ensures Prefixed([], r) == r
  {
    assert r.Done? ==> [] + r.value == r.value;
  }

  lemma ManyStep<T>(read: nat -> Outcome<T>, items: seq<T>, off: nat, n: nat)
    requires n > 0
    ensures !read(off).Done? ==> Prefixed(items, ReadMany(read, off, n)) == Failed(read(off))
    ensures read(off).Done? ==> Prefixed(items, ReadMany(read, off, n))
                                == Prefixed(items + [read(off).value], ReadMany(read, read(off).next, n - 1))
  {
    if read(off).Done? {
      PrefixedStep(items, read(off).value, ReadMany(read, read(off).next, n - 1));
    }
  }

  lemma AppendStep<T>(out: bytes, encode: T -> bytes, items: seq<T>, i: nat, whole: bytes)
    requires i < |items| && out + EncodeMany(encode, items[i..]) == whole
    ensures out + encode(items[i]) + EncodeMany(encode, items[i + 1..]) == whole
  {
    assert items[i..][1..] == items[i + 1..];
    var a, b := encode(items[i]), EncodeMany(encode, items[i + 1..]);
    assert out + (a + b) == out + a + b;
  }
}
