/** Domain names on the wire: labels, compression pointers, and their textual form (section 4.1 of RFC 1035). */
module DnsNames {
  import opened Bytes
  import opened Options
  import opened Codec
  import Wire

  const Dot: byte := 46
  const MaxLabel := 191  // longer labels look like pointers, or wrap; RFC 1035 allows 63

  // ---------- reading ----------

  predicate IsPointer(b: byte) { b >= 0xC0 }

  function Target(data: bytes, off: nat): nat
    requires off + 1 < |data| && IsPointer(data[off])
  {
    var high: int := data[off];
    256 * (high - 0xC0) + data[off + 1]
  }

  /** The parts read from `off` when at most `hops` pointers may be followed: running off the end of the
      data ends a name, as the zero byte does, and a pointer contributes the whole name it points to. */
  function ReadParts(data: bytes, off: nat, hops: nat): Outcome<seq<bytes>>
    decreases hops, if off < |data| then |data| - off else 0, 0
  {
    if off >= |data| then Done([], off)
    else if data[off] == 0 then Done([], off + 1)
    else if IsPointer(data[off]) then
      if off + 1 >= |data| then Fail
      else if hops == 0 then Diverges
      else
        match ReadName(data, Target(data, off), hops - 1)
        case Done(name, _) => Done([name], off + 2)
        case Fail => Fail
        case Diverges => Diverges
    else if off + 1 + data[off] > |data| then Fail
    else Prefixed([data[off + 1..off + 1 + data[off]]], ReadParts(data, off + 1 + data[off], hops))
  }

  function ReadName(data: bytes, off: nat, hops: nat): Outcome<bytes>
    decreases hops, if off < |data| then |data| - off else 0, 1
  {
    match ReadParts(data, off, hops)
    case Done(parts, next) => Done(JoinName(parts), next)
    case Fail => Fail
    case Diverges => Diverges
  }

  function JoinName(parts: seq<bytes>): bytes {
    if parts == [] then []
    else if |parts| == 1 then parts[0]
    else parts[0] + [Dot] + JoinName(parts[1..])
  }

  lemma {:induction false} PartsInBounds(data: bytes, off: nat, hops: nat)
    requires off <= |data|
    ensures ReadParts(data, off, hops).Done? ==> off <= ReadParts(data, off, hops).next <= |data|
    decreases |data| - off
  {
    if off < |data| && data[off] != 0 && !IsPointer(data[off]) && off + 1 + data[off] <= |data| {
      PartsInBounds(data, off + 1 + data[off], hops);
    }
  }

  // ---------- following pointers ----------

  /** Where the name starting at `off` continues, if its labels end in a pointer. */
  function Hop(data: bytes, off: nat): Option<nat>
    decreases if off < |data| then |data| - off else 0
  {
    if off >= |data| || data[off] == 0 then None
    else if IsPointer(data[off]) then if off + 1 >= |data| then None else Some(Target(data, off))
    else if off + 1 + data[off] > |data| then None
    else Hop(data, off + 1 + data[off])
  }

  /** The k-th name in the chain of pointers from `off`. */
  function Follow(data: bytes, off: nat, k: nat): Option<nat> {
    if k == 0 then Some(off)
    else
      var p := Follow(data, off, k - 1);
      if p.None? then None else Hop(data, p.value)
  }

  lemma {:induction false} FollowFirst(data: bytes, off: nat, k: nat)
    requires k > 0
    ensures Follow(data, off, k) == if Hop(data, off).None? then None else Follow(data, Hop(data, off).value, k - 1)
  {
    if k > 1 {
      FollowFirst(data, off, k - 1);
    } else {
      assert Follow(data, off, 0) == Some(off);
    }
  }

  lemma {:induction false} PartsDiverge(data: bytes, off: nat, hops: nat)
    ensures ReadParts(data, off, hops).Diverges? <==> Follow(data, off, hops + 1).Some?
    decreases hops, if off < |data| then |data| - off else 0
  {
    FollowFirst(data, off, hops + 1);
    if off < |data| && data[off] != 0 {
      if IsPointer(data[off]) {
        if off + 1 < |data| && hops > 0 {
          PartsDiverge(data, Target(data, off), hops - 1);
        }
      } else if off + 1 + data[off] <= |data| {
        PartsDiverge(data, off + 1 + data[off], hops);
        FollowFirst(data, off + 1 + data[off], hops + 1);
      }
    }
  }

  lemma {:induction false} HopInside(data: bytes, off: nat)
    requires Hop(data, off).Some?
    ensures off < |data|
  {
  }

  // The names visited by the first k hops.
  function Visited(data: bytes, off: nat, k: nat): seq<nat>
    requires Follow(data, off, k).Some?
  {
    if k == 0 then [] else Visited(data, off, k - 1) + [Follow(data, off, k - 1).value]
  }

  lemma {:induction false} VisitedAt(data: bytes, off: nat, k: nat, j: nat)
    requires Follow(data, off, k).Some? && j < k
    ensures |Visited(data, off, k)| == k
    ensures Follow(data, off, j).Some? && Visited(data, off, k)[j] == Follow(data, off, j).value < |data|
  {
    if j < k - 1 {
      VisitedAt(data, off, k - 1, j);
    } else {
      if k > 1 {
        VisitedAt(data, off, k - 1, 0);
      }
      HopInside(data, Follow(data, off, k - 1).value);
    }
  }

  /** More than n numbers below n repeat one. */
  lemma {:induction false} Pigeonhole(s: seq<nat>, n: nat) returns (i: nat, j: nat)
    requires |s| > n && forall k :: 0 <= k < |s| ==> s[k] < n
    ensures i < j < |s| && s[i] == s[j]
    decreases n
  {
    var last := s[|s| - 1];
    if k :| 0 <= k < |s| - 1 && s[k] == last {
      i, j := k, |s| - 1;
    } else {
      var t := seq(|s| - 1, k requires 0 <= k < |s| - 1 => if s[k] == n - 1 then last else s[k]);
      i, j := Pigeonhole(t, n - 1);
    }
  }

  // A chain that comes back to a name it has visited goes on for ever.
  lemma {:induction false} LoopsForEver(data: bytes, off: nat, i: nat, j: nat, k: nat)
    requires i < j && Follow(data, off, j).Some? && Follow(data, off, i) == Follow(data, off, j)
    ensures Follow(data, off, k).Some?
    decreases k
  {
    if k <= j {
      if k < j {
        VisitedAt(data, off, j, k);
      }
    } else {
      LoopsForEver(data, off, i, j, k - (j - i));
      SameTail(data, off, i, j, k - j);
    }
  }

  lemma {:induction false} SameTail(data: bytes, off: nat, i: nat, j: nat, k: nat)
    requires Follow(data, off, i) == Follow(data, off, j)
    ensures Follow(data, off, i + k) == Follow(data, off, j + k)
  {
    if k > 0 {
      SameTail(data, off, i, j, k - 1);
      assert i + k - 1 == i + (k - 1) && j + k - 1 == j + (k - 1);
    }
  }

  /** The reader stops: some number of pointers is enough. */
  ghost predicate Terminates(data: bytes, off: nat) {
    exists hops: nat :: !ReadName(data, off, hops).Diverges?
  }

  function Enough(data: bytes): nat { |data| }

  /** The chain of pointers from `off` comes back to a name it has been at. */
  ghost predicate Revisits(data: bytes, off: nat) {
    exists i: nat, j: nat :: i < j && Follow(data, off, j).Some? && Follow(data, off, i) == Follow(data, off, j)
  }

  // A chain longer than the data comes back.
  lemma LongChainRevisits(data: bytes, off: nat)
    requires Follow(data, off, |data| + 1).Some?
    ensures Revisits(data, off)
  {
    var n := |data| + 1;
    forall k | 0 <= k < n ensures |Visited(data, off, n)| == n && Visited(data, off, n)[k] < |data| {
      VisitedAt(data, off, n, k);
    }
    VisitedAt(data, off, n, 0);
    var i, j := Pigeonhole(Visited(data, off, n), |data|);
    VisitedAt(data, off, n, i);
    VisitedAt(data, off, n, j);
    assert i < j && Follow(data, off, i) == Follow(data, off, j);
  }

  /** The reader stops if and only if the chain of pointers never comes back to a name; then the chain has at
      most as many names as the data has bytes, and that many pointers are enough for the reader. */
  lemma TerminatesIff(data: bytes, off: nat)
    ensures Terminates(data, off) <==> !Revisits(data, off)
    ensures Terminates(data, off) <==> Follow(data, off, |data| + 1).None?
    ensures Terminates(data, off) <==> !ReadName(data, off, Enough(data)).Diverges?
  {
    PartsDiverge(data, off, |data|);
    if Follow(data, off, |data| + 1).Some? {
      LongChainRevisits(data, off);
    } else {
      assert !ReadName(data, off, |data|).Diverges?;
    }
    if i: nat, j: nat :| i < j && Follow(data, off, j).Some? && Follow(data, off, i) == Follow(data, off, j) {
      forall hops: nat ensures ReadName(data, off, hops).Diverges? {
        LoopsForEver(data, off, i, j, hops + 1);
        PartsDiverge(data, off, hops);
      }
      LoopsForEver(data, off, i, j, |data| + 1);
    }
  }

  /** Once it stops, allowing more pointers changes nothing. */
  lemma {:induction false} MoreHops(data: bytes, off: nat, hops: nat, more: nat)
    requires hops <= more && !ReadParts(data, off, hops).Diverges?
    ensures ReadParts(data, off, more) == ReadParts(data, off, hops)
    decreases hops, if off < |data| then |data| - off else 0
  {
    if off < |data| && data[off] != 0 {
      if IsPointer(data[off]) {
        if off + 1 < |data| {
          MoreHops(data, Target(data, off), hops - 1, more - 1);
        }
      } else if off + 1 + data[off] <= |data| {
        MoreHops(data, off + 1 + data[off], hops, more);
      }
    }
  }

  /** Every pointer met while reading from `off` points before the name it occurs in. */
  predicate PriorOnly(data: bytes, off: nat)
    decreases off
  {
    Hop(data, off).Some? ==> Hop(data, off).value < off && PriorOnly(data, Hop(data, off).value)
  }

  lemma {:induction false} PriorStops(data: bytes, off: nat, hops: nat)
    requires PriorOnly(data, off) && off <= hops
    ensures !ReadParts(data, off, hops).Diverges?
    decreases off
  {
    PartsDiverge(data, off, hops);
    FollowFirst(data, off, hops + 1);
    if Hop(data, off).Some? {
      PriorStops(data, Hop(data, off).value, hops - 1);
      PartsDiverge(data, Hop(data, off).value, hops - 1);
    }
  }

  /** Backward pointers are enough: the reader stops, after at most `off` hops, and stays inside the data. */
  lemma PriorTerminates(data: bytes, off: nat)
    requires PriorOnly(data, off)
    ensures Terminates(data, off) && !ReadName(data, off, off).Diverges?
    ensures off <= |data| && ReadName(data, off, off).Done? ==> off <= ReadName(data, off, off).next <= |data|
  {
    PriorStops(data, off, off);
    assert !ReadName(data, off, off).Diverges?;
    if off <= |data| {
      PartsInBounds(data, off, off);
    }
  }

  /** A pointer to itself is followed for ever. */
  lemma SelfPointer()
    ensures !Terminates([0xC0, 0], 0)
  {
    var data: bytes := [0xC0, 0];
    assert Hop(data, 0) == Some(0);
    forall hops: nat ensures ReadName(data, 0, hops).Diverges? {
      assert Follow(data, 0, 0) == Some(0) && Follow(data, 0, 1) == Some(0);
      LoopsForEver(data, 0, 0, 1, hops + 1);
      PartsDiverge(data, 0, hops);
    }
  }

  // ---------- writing ----------

  /** Where the first dot is; the length of the name if it has none. */
  function DotAt(name: bytes): (d: nat)
    ensures d <= |name| && (d < |name| ==> name[d] == Dot) && (forall k :: 0 <= k < d ==> name[k] != Dot)
  {
    if name == [] || name[0] == Dot then 0 else 1 + DotAt(name[1..])
  }

  // An empty part after a last dot is dropped.
  function SplitName(name: bytes): seq<bytes> {
    if name == [] then []
    else if DotAt(name) == |name| then [name]
    else [name[..DotAt(name)]] + SplitName(name[DotAt(name) + 1..])
  }

  function EncodeParts(parts: seq<bytes>): bytes {
    if parts == [] then [0] else [|parts[0]| % 256] + parts[0] + EncodeParts(parts[1..])
  }

  function Stripped(name: bytes): bytes {
    if |name| > 0 && name[|name| - 1] == Dot then name[..|name| - 1] else name
  }

  function EncodeName(name: bytes): bytes { EncodeParts(SplitName(Stripped(name))) }

  /** Labels of 1 to 191 bytes separated by single dots; or the empty name. */
  predicate Clean(name: bytes)
    decreases |name|
  {
    name == [] ||
    (var d := DotAt(name);
     1 <= d <= MaxLabel && (d == |name| || (d + 1 < |name| && Clean(name[d + 1..]))))
  }

  // ---------- the round trip ----------

  // No name read starts with more than 191 bytes before a dot.
  lemma {:induction false} ReadShort(data: bytes, off: nat, hops: nat)
    requires ReadName(data, off, hops).Done?
    ensures DotAt(ReadName(data, off, hops).value) <= MaxLabel
    decreases hops, if off < |data| then |data| - off else 0
  {
    var name := ReadName(data, off, hops).value;
    var parts := ReadParts(data, off, hops).value;
    if off < |data| && data[off] != 0 {
      if IsPointer(data[off]) {
        ReadShort(data, Target(data, off), hops - 1);
      } else {
        assert parts[0] == data[off + 1..off + 1 + data[off]];
        assert |parts| > 1 ==> name[|parts[0]|] == Dot;
      }
    }
  }

  // The name after its first label and dot.
  function Rest(s: bytes): bytes { if DotAt(s) == |s| then [] else s[DotAt(s) + 1..] }

  lemma {:induction false} SplitFirst(s: bytes)
    requires s != []
    ensures SplitName(s) != [] && SplitName(s)[0] == s[..DotAt(s)] && SplitName(s)[1..] == SplitName(Rest(s))
  {
    assert s[..|s|] == s;
    assert SplitName(s) == [s[..DotAt(s)]] + SplitName(Rest(s));
  }

  // The first label of an encoded name, and what follows it.
  lemma {:induction false} LabelRead(data: bytes, off: nat, part: bytes, tail: bytes, hops: nat)
    requires 1 <= |part| <= MaxLabel && Has(data, off, [|part|] + part + tail)
    ensures Has(data, off + 1 + |part|, tail)
    ensures ReadParts(data, off, hops) == Prefixed([part], ReadParts(data, off + 1 + |part|, hops))
  {
    HasBoth(data, off, [|part|] + part, tail);
    HasBoth(data, off, [|part|], part);
    assert data[off] == data[off..off + 1][0];
  }

  lemma {:induction false} JoinFirst(part: bytes, parts: seq<bytes>)
    ensures JoinName([part] + parts) == if parts == [] then part else part + [Dot] + JoinName(parts)
  {
    assert ([part] + parts)[1..] == parts;
  }

  lemma {:induction false} PrefixAfter(front: bytes, x: bytes, y: bytes)
    ensures front + x <= front + y <==> x <= y
  {
    if front + x <= front + y {
      assert (front + x)[|front|..] == x && (front + y)[|front|..] == y;
      assert (front + y)[..|front + x|] == front + x;
    }
  }

  lemma {:induction false} EmptyRead(data: bytes, off: nat, hops: nat)
    requires Has(data, off, [0])
    ensures ReadParts(data, off, hops) == Done([], off + 1)
  {
    assert data[off] == data[off..off + 1][0];
  }

  // How encoded parts start: with the first of them, or, if that is empty, like the empty name.
  lemma {:induction false} FirstPart(data: bytes, off: nat, parts: seq<bytes>, hops: nat)
    requires parts != [] && |parts[0]| <= MaxLabel && Has(data, off, EncodeParts(parts))
    ensures parts[0] == [] ==> ReadParts(data, off, hops) == Done([], off + 1)
    ensures parts[0] != [] ==>
      && Has(data, off + 1 + |parts[0]|, EncodeParts(parts[1..]))
      && ReadParts(data, off, hops) == Prefixed([parts[0]], ReadParts(data, off + 1 + |parts[0]|, hops))
  {
    var part, tail := parts[0], EncodeParts(parts[1..]);
    if part == [] {
      assert [0] + part + tail == [0] + tail;
      HasBoth(data, off, [0], tail);
      EmptyRead(data, off, hops);
    } else {
      LabelRead(data, off, part, tail, hops);
    }
  }

  predicate GoodParts(parts: seq<bytes>) { forall k :: 0 <= k < |parts| ==> 1 <= |parts[k]| <= MaxLabel }

  lemma Regroup(a: bytes, b: bytes, c: bytes)
    ensures a + b + c == a + (b + c)
  {
  }

  lemma {:induction false} PartsAreLabels(parts: seq<bytes>)
    requires GoodParts(parts)
    ensures EncodeParts(parts) == EncodeLabels(parts) + [0]
    decreases |parts|
  {
    if parts != [] {
      PartsAreLabels(parts[1..]);
      Regroup([|parts[0]| % 256] + parts[0], EncodeLabels(parts[1..]), [0]);
    }
  }

  lemma {:induction false} GoodPartsRead(data: bytes, off: nat, parts: seq<bytes>, hops: nat)
    requires GoodParts(parts) && Has(data, off, EncodeParts(parts))
    ensures ReadParts(data, off, hops) == Done(parts, off + |EncodeParts(parts)|)
  {
    var labels := EncodeLabels(parts);
    PartsAreLabels(parts);
    HasBoth(data, off, labels, [0]);
    EmptyRead(data, off + |labels|, hops);
    LabelsHere(data, off, parts, off + |labels|);
    LabeledRead(data, off, parts, off + |labels|, hops, [], off + |labels| + 1);
    assert parts + [] == parts;
  }

  lemma {:induction false} CleanParts(s: bytes)
    requires Clean(s)
    ensures GoodParts(SplitName(s))
    decreases |s|
  {
    if s != [] {
      CleanParts(Rest(s));
      SplitFirst(s);
      var parts := SplitName(s);
      assert forall k :: 1 <= k < |parts| ==> parts[k] == parts[1..][k - 1];
    }
  }

  // A name cut at its first dot.
  ghost predicate CutAt(s: bytes, d: nat, rest: bytes) {
    d <= |s| && if d == |s| then rest == [] else s == s[..d] + [Dot] + rest
  }

  lemma {:induction false} FirstCut(s: bytes)
    ensures CutAt(s, DotAt(s), Rest(s)) && |Rest(s)| <= |s|
  {
  }

  lemma {:induction false} JoinSplit(s: bytes)
    requires Clean(s)
    ensures JoinName(SplitName(s)) == s
    decreases |s|
  {
    if s != [] {
      JoinSplit(Rest(s));
      SplitFirst(s);
      FirstCut(s);
      JoinAgain(s, DotAt(s), Rest(s), SplitName(s));
    }
  }

  lemma {:induction false} JoinAgain(s: bytes, d: nat, rest: bytes, parts: seq<bytes>)
    requires CutAt(s, d, rest) && parts != [] && parts[0] == s[..d]
    requires JoinName(parts[1..]) == rest && (|parts| == 1 <==> d == |s|)
    ensures JoinName(parts) == s
  {
  }

  // Something dot-free for longer than any label read is not how a name read starts.
  lemma {:induction false} LongLabelLost(s: bytes, r: bytes)
    requires DotAt(r) <= MaxLabel < DotAt(s)
    ensures !(s <= r)
  {
  }

  // The name read does not start with s.
  ghost predicate Lost(data: bytes, off: nat, s: bytes, hops: nat) {
    ReadName(data, off, hops).Done? ==> !(s <= ReadName(data, off, hops).value)
  }

  // A first label that is read well does not help if what follows is lost.
  lemma {:induction false} LaterLost(data: bytes, off: nat, next: nat, s: bytes, d: nat, rest: bytes, hops: nat)
    requires d < |s| && CutAt(s, d, rest)
    requires ReadParts(data, off, hops) == Prefixed([s[..d]], ReadParts(data, next, hops))
    requires if rest == [] then ReadParts(data, next, hops) == Done([], next + 1) else Lost(data, next, rest, hops)
    ensures Lost(data, off, s, hops)
  {
    var parts := ReadParts(data, next, hops);
    if parts.Done? {
      LaterDiffers(s, d, rest, parts.value);
    }
  }

  lemma {:induction false} LaterDiffers(s: bytes, d: nat, rest: bytes, parts: seq<bytes>)
    requires d < |s| && CutAt(s, d, rest)
    requires if rest == [] then parts == [] else !(rest <= JoinName(parts))
    ensures !(s <= JoinName([s[..d]] + parts))
  {
    JoinFirst(s[..d], parts);
    if parts != [] {
      PrefixAfter(s[..d] + [Dot], rest, JoinName(parts));
    }
  }

  // Why a name is not clean.
  lemma {:induction false} UncleanBecause(s: bytes)
    requires !Clean(s)
    ensures s != [] && DotAt(s) <= |s|
    ensures 1 <= DotAt(s) <= MaxLabel ==> DotAt(s) < |s| && (Rest(s) == [] || !Clean(Rest(s)))
  {
  }

  // How the encoding of a name with a short first label is read.
  lemma {:induction false} NameStarts(data: bytes, off: nat, s: bytes, d: nat, parts: seq<bytes>, hops: nat)
    requires s != [] && d == DotAt(s) <= MaxLabel && parts == SplitName(s) && Has(data, off, EncodeParts(parts))
    ensures parts != [] && parts[1..] == SplitName(Rest(s))
    ensures d == 0 ==> ReadParts(data, off, hops) == Done([], off + 1)
    ensures d > 0 ==> Has(data, off + 1 + d, EncodeParts(parts[1..]))
    ensures d > 0 ==> ReadParts(data, off, hops) == Prefixed([s[..d]], ReadParts(data, off + 1 + d, hops))
  {
    SplitFirst(s);
    FirstPart(data, off, parts, hops);
  }

  lemma {:induction false} NothingBehind(data: bytes, off: nat, others: seq<bytes>, hops: nat)
    requires others == SplitName([]) && Has(data, off, EncodeParts(others))
    ensures ReadParts(data, off, hops) == Done([], off + 1)
  {
    EmptyRead(data, off, hops);
  }

  lemma {:induction false} ShortLost(data: bytes, off: nat, s: bytes, d: nat, rest: bytes, hops: nat)
    requires s != [] && CutAt(s, d, rest) && (d > 0 ==> d < |s|)
    requires d == 0 ==> ReadParts(data, off, hops) == Done([], off + 1)
    requires d > 0 ==> ReadParts(data, off, hops) == Prefixed([s[..d]], ReadParts(data, off + 1 + d, hops))
    requires d > 0 && rest == [] ==> ReadParts(data, off + 1 + d, hops) == Done([], off + 1 + d + 1)
    requires d > 0 && rest != [] ==> Lost(data, off + 1 + d, rest, hops)
    ensures Lost(data, off, s, hops)
  {
    if d > 0 {
      LaterLost(data, off, off + 1 + d, s, d, rest, hops);
    }
  }

  lemma {:induction false} LongLost(data: bytes, off: nat, s: bytes, hops: nat)
    requires DotAt(s) > MaxLabel
    ensures Lost(data, off, s, hops)
  {
    if ReadName(data, off, hops).Done? {
      ReadShort(data, off, hops);
      LongLabelLost(s, ReadName(data, off, hops).value);
    }
  }

  // What is read back from an unclean name does not even start with it.
  lemma {:induction false} UncleanLost(data: bytes, off: nat, s: bytes, parts: seq<bytes>, hops: nat)
    requires !Clean(s) && parts == SplitName(s) && Has(data, off, EncodeParts(parts))
    ensures Lost(data, off, s, hops)
    decreases |s|
  {
    UncleanBecause(s);
    var d, rest := DotAt(s), Rest(s);
    if d > MaxLabel {
      LongLost(data, off, s, hops);
    } else {
      if d > 0 && rest != [] {
        var others := OthersThere(data, off, s, d, rest, parts, hops);
        UncleanLost(data, off + 1 + d, rest, others, hops);
      }
      StartLost(data, off, s, d, rest, parts, hops);
    }
  }

  lemma {:induction false} OthersThere(data: bytes, off: nat, s: bytes, d: nat, rest: bytes, parts: seq<bytes>, hops: nat) returns (others: seq<bytes>)
    requires s != [] && 0 < d == DotAt(s) <= MaxLabel && rest == Rest(s) && parts == SplitName(s) && Has(data, off, EncodeParts(parts))
    ensures others == SplitName(rest) && Has(data, off + 1 + d, EncodeParts(others))
  {
    NameStarts(data, off, s, d, parts, hops);
    others := parts[1..];
  }

  // The first part read well does not help.
  lemma {:induction false} StartLost(data: bytes, off: nat, s: bytes, d: nat, rest: bytes, parts: seq<bytes>, hops: nat)
    requires s != [] && d == DotAt(s) <= MaxLabel && rest == Rest(s) && parts == SplitName(s) && Has(data, off, EncodeParts(parts))
    requires (d > 0 ==> d < |s|) && (d > 0 && rest != [] ==> Lost(data, off + 1 + d, rest, hops))
    ensures Lost(data, off, s, hops)
  {
    NameStarts(data, off, s, d, parts, hops);
    if d > 0 && rest == [] {
      NothingBehind(data, off + 1 + d, parts[1..], hops);
    }
    FirstCut(s);
    ShortLost(data, off, s, d, rest, hops);
  }

  /** An encoded name reads back, at the end of its encoding, exactly when it is clean; otherwise some other
      name (or an error) does, whatever the rest of the data. */
  lemma {:induction false} NameRoundTripIff(data: bytes, off: nat, name: bytes, hops: nat)
    requires off <= |data| && Has(data, off, EncodeName(name))
    ensures ReadBack(ReadName(data, off, hops), name, Clean(name), off + |EncodeName(name)|)
  {
    var s := Stripped(name);
    if Clean(name) {
      NoTrailingDot(name);
    }
    if Clean(s) {
      CleanParts(s);
      GoodPartsRead(data, off, SplitName(s), hops);
      JoinSplit(s);
    } else {
      UncleanLost(data, off, s, SplitName(s), hops);
    }
  }

  lemma {:induction false} NoTrailingDot(name: bytes)
    requires Clean(name)
    ensures name != [] ==> name[|name| - 1] != Dot
    decreases |name|
  {
    if name != [] && DotAt(name) + 1 < |name| {
      NoTrailingDot(name[DotAt(name) + 1..]);
    }
  }

  // ---------- compressed names ----------

  // Labels as they are written, without an end.
  function EncodeLabels(parts: seq<bytes>): bytes {
    if parts == [] then [] else [|parts[0]| % 256] + parts[0] + EncodeLabels(parts[1..])
  }

  // The two bytes lead to p.
  predicate LeadsTo(pointer: bytes, p: nat) {
    |pointer| == 2 && IsPointer(pointer[0]) && (var high: int := pointer[0]; 256 * high + pointer[1] == 0xC000 + p)
  }

  // The bytes of a pointer to p.
  lemma {:induction false} PointerBytes(p: nat)
    requires p < 0x4000
    ensures LeadsTo(Wire.Put(2, 0xC000 + p), p)
  {
    Wire.Put2(0xC000 + p);
  }

  lemma {:induction false} PointerAlone(data: bytes, off: nat, p: nat, hops: nat, s: bytes, end: nat, pointer: bytes)
    requires LeadsTo(pointer, p) && Has(data, off, pointer) && hops > 0 && ReadName(data, p, hops - 1) == Done(s, end)
    ensures ReadParts(data, off, hops) == Done([s], off + 2)
  {
    var two := data[off..off + 2];
    assert data[off] == two[0] && data[off + 1] == two[1];
  }

  // The data has these labels from off to end.
  ghost predicate Labeled(data: bytes, off: nat, parts: seq<bytes>, end: nat)
    decreases |parts|
  {
    if parts == [] then off == end
    else
      && off + 1 + |parts[0]| <= |data| && data[off] == |parts[0]| && data[off + 1..off + 1 + |parts[0]|] == parts[0]
      && Labeled(data, off + 1 + |parts[0]|, parts[1..], end)
  }

  lemma {:induction false} LabelHere(data: bytes, off: nat, part: bytes, rest: bytes)
    requires 1 <= |part| <= MaxLabel && Has(data, off, [|part|] + part + rest)
    ensures off + 1 + |part| <= |data| && data[off] == |part| && data[off + 1..off + 1 + |part|] == part
    ensures Has(data, off + 1 + |part|, rest)
  {
    HasBoth(data, off, [|part|] + part, rest);
    HasBoth(data, off, [|part|], part);
    assert data[off] == data[off..off + 1][0];
  }

  lemma {:induction false} LabelsHere(data: bytes, off: nat, parts: seq<bytes>, end: nat)
    requires GoodParts(parts) && Has(data, off, EncodeLabels(parts)) && end == off + |EncodeLabels(parts)|
    ensures Labeled(data, off, parts, end)
    decreases |parts|
  {
    if parts != [] {
      LabelHere(data, off, parts[0], EncodeLabels(parts[1..]));
      LabelsHere(data, off + 1 + |parts[0]|, parts[1..], end);
    }
  }

  // Labels are read, and then whatever follows them.
  lemma {:induction false} LabeledRead(data: bytes, off: nat, parts: seq<bytes>, mid: nat, hops: nat, tail: seq<bytes>, end: nat)
    requires GoodParts(parts) && Labeled(data, off, parts, mid) && ReadParts(data, mid, hops) == Done(tail, end)
    ensures ReadParts(data, off, hops) == Done(parts + tail, end)
    decreases |parts|
  {
    if parts == [] {
      assert parts + tail == tail;
    } else {
      LabeledRead(data, off + 1 + |parts[0]|, parts[1..], mid, hops, tail, end);
      assert [parts[0]] + (parts[1..] + tail) == parts + tail;
    }
  }

  /** Labels followed by a pointer read as the labels followed by whatever name the pointer leads to, and the reading
      ends two bytes after the pointer starts. */
  lemma {:induction false} PointerRead(data: bytes, off: nat, parts: seq<bytes>, p: nat, hops: nat, s: bytes, end: nat, pointer: bytes)
    requires GoodParts(parts) && LeadsTo(pointer, p) && Has(data, off, EncodeLabels(parts) + pointer)
    requires hops > 0 && ReadName(data, p, hops - 1) == Done(s, end)
    ensures ReadParts(data, off, hops) == Done(parts + [s], off + |EncodeLabels(parts)| + 2)
  {
    var mid := off + |EncodeLabels(parts)|;
    HasBoth(data, off, EncodeLabels(parts), pointer);
    PointerAlone(data, mid, p, hops, s, end, pointer);
    LabelsHere(data, off, parts, mid);
    LabeledRead(data, off, parts, mid, hops, [s], mid + 2);
  }

  lemma {:induction false} JoinLast(parts: seq<bytes>, s: bytes)
    ensures JoinName(parts + [s]) == if parts == [] then s else JoinName(parts) + [Dot] + s
    decreases |parts|
  {
    if parts == [] {
      assert parts + [s] == [s];
    } else {
      assert (parts + [s])[1..] == parts[1..] + [s];
      JoinLast(parts[1..], s);
      if |parts| > 1 {
        JoinSides(parts[0], JoinName(parts[1..]), s);
      }
    }
  }

  lemma JoinSides(a: bytes, b: bytes, c: bytes)
    ensures a + [Dot] + (b + [Dot] + c) == a + [Dot] + b + [Dot] + c
  {
  }

  /** A clean name written as labels and a pointer to another, anywhere in the first 16384 bytes, reads as the two
      joined by a dot. */
  lemma {:induction false} CompressedName(data: bytes, off: nat, t: bytes, p: nat, s: bytes, pointer: bytes)
    requires Clean(t) && Clean(s) && s != [] && p < 0x4000 && Has(data, p, EncodeName(s))
    requires pointer == Wire.Put(2, 0xC000 + p) && Has(data, off, EncodeLabels(SplitName(t)) + pointer)
    ensures ReadName(data, off, Enough(data))
            == Done(if t == [] then s else t + [Dot] + s, off + |EncodeLabels(SplitName(t))| + 2)
  {
    var parts := SplitName(t);
    CleanParts(t);
    JoinSplit(t);
    PointerBytes(p);
    NameRoundTripIff(data, p, s, |data| - 1);
    PointerRead(data, off, parts, p, |data|, s, p + |EncodeName(s)|, pointer);
    JoinLast(parts, s);
  }

  /** A trailing dot makes no difference to how a clean name is written. */
  lemma {:induction false} AbsoluteName(s: bytes)
    requires Clean(s) && s != []
    ensures EncodeName(s + [Dot]) == EncodeName(s)
  {
    NoTrailingDot(s);
    assert (s + [Dot])[..|s|] == s;
  }

  // ---------- any data ----------

  lemma {:induction false} LabeledPrefix(data: bytes, off: nat, parts: seq<bytes>, mid: nat, hops: nat)
    requires GoodParts(parts) && Labeled(data, off, parts, mid)
    ensures ReadParts(data, off, hops) == Prefixed(parts, ReadParts(data, mid, hops))
    decreases |parts|
  {
    if parts == [] {
      ManyStart(ReadParts(data, mid, hops));
    } else {
      LabeledPrefix(data, off + 1 + |parts[0]|, parts[1..], mid, hops);
      PrefixedTwice(parts, ReadParts(data, mid, hops));
    }
  }

  lemma PrefixedTwice(parts: seq<bytes>, r: Outcome<seq<bytes>>)
    requires parts != []
    ensures Prefixed([parts[0]], Prefixed(parts[1..], r)) == Prefixed(parts, r)
  {
    if r.Done? {
      assert [parts[0]] + (parts[1..] + r.value) == parts + r.value;
    }
  }

  // Nothing more can be read here as a label.
  predicate Stops(data: bytes, off: nat) {
    off >= |data| || data[off] == 0 || IsPointer(data[off]) || off + 1 + data[off] > |data|
  }

  /** Any data: the labels from off, up to where no label can be read. */
  lemma {:induction false} LabelsEnd(data: bytes, off: nat) returns (parts: seq<bytes>, mid: nat)
    ensures GoodParts(parts) && Labeled(data, off, parts, mid) && Stops(data, mid)
    decreases if off < |data| then |data| - off else 0
  {
    if Stops(data, off) {
      parts, mid := [], off;
    } else {
      var rest;
      var part := data[off + 1..off + 1 + data[off]];
      rest, mid := LabelsEnd(data, off + 1 + data[off]);
      parts := [part] + rest;
      assert parts[1..] == rest;
    }
  }

  /** What those labels, and what stands behind them, make of the name: the end of the data or a zero byte ends it; a
      label longer than the data is left and a pointer cut short are errors; and a pointer, 14 bits of it, leads to the
      name that goes in its place. */
  lemma {:induction false} ReadDecided(data: bytes, off: nat, parts: seq<bytes>, mid: nat, hops: nat)
    requires GoodParts(parts) && Labeled(data, off, parts, mid) && Stops(data, mid)
    ensures var r := ReadParts(data, off, hops);
            if mid >= |data| then r == Done(parts, mid)
            else if data[mid] == 0 then r == Done(parts, mid + 1)
            else if data[mid] < 192 || mid + 1 >= |data| then r == Fail
            else
              var high: int := data[mid];
              if hops == 0 then r == Diverges
              else
                var to := ReadName(data, 256 * (high - 192) + data[mid + 1], hops - 1);
                if to.Done? then r == Done(parts + [to.value], mid + 2) else r == (if to.Fail? then Fail else Diverges)
  {
    LabeledPrefix(data, off, parts, mid, hops);
    assert parts + [] == parts;
  }
}
