/** "The k closest": what a routing table hands out and what a lookup keeps. */
module Closest {
  import opened Bytes
  import opened NodeIds

  datatype PeerInfo = PeerInfo(id: NodeId, pubKey: bytes, name: bytes, addrs: seq<bytes>, lastSeen: int)

  function Ids(ps: seq<PeerInfo>): set<NodeId> {
    set p | p in ps :: p.id
  }

  lemma InIds(ps: seq<PeerInfo>, id: NodeId)
    ensures id in Ids(ps) <==> exists i :: 0 <= i < |ps| && ps[i].id == id
  {
    if id in Ids(ps) {
      var p :| p in ps && p.id == id;
    }
    if i :| 0 <= i < |ps| && ps[i].id == id {
      assert ps[i] in ps;
    }
  }

  lemma IdsSnoc(ps: seq<PeerInfo>, p: PeerInfo)
    ensures Ids(ps + [p]) == Ids(ps) + {p.id}
  {
    forall x
      ensures x in Ids(ps + [p]) <==> x in Ids(ps) + {p.id}
    {
      InIds(ps, x);
      InIds(ps + [p], x);
      if i :| 0 <= i < |ps + [p]| && (ps + [p])[i].id == x {
        assert i < |ps| ==> ps[i].id == x;
      }
      if i :| 0 <= i < |ps| && ps[i].id == x {
        assert (ps + [p])[i].id == x;
      }
      assert (ps + [p])[|ps|] == p;
    }
  }

  ghost predicate StrictlySorted(target: NodeId, ps: seq<PeerInfo>) {
    forall i, j :: 0 <= i < j < |ps| ==> Closer(target, ps[i].id, ps[j].id)
  }

  ghost predicate Sorted(target: NodeId, ps: seq<PeerInfo>) {
    forall i, j :: 0 <= i < j < |ps| ==> !Closer(target, ps[j].id, ps[i].id)
  }

  // Everything in all but outside ps is farther than everything in ps.
  ghost predicate RestFarther(target: NodeId, all: set<NodeId>, ps: seq<PeerInfo>) {
    forall x, i :: x in all && x !in Ids(ps) && 0 <= i < |ps| ==> Closer(target, ps[i].id, x)
  }

  /** ps is exactly the k IDs of all closest to the target (all of them if there are fewer), in strict
      order of distance. */
  ghost predicate IsClosest(target: NodeId, k: nat, all: set<NodeId>, ps: seq<PeerInfo>) {
    && StrictlySorted(target, ps) && Ids(ps) <= all
    && |ps| <= k && (|ps| < k ==> Ids(ps) == all)
    && RestFarther(target, all, ps)
  }

  /** An ID of all is its own closest. */
  lemma SelfFirst(target: NodeId, k: nat, all: set<NodeId>, ps: seq<PeerInfo>)
    requires IsClosest(target, k, all, ps) && target in all && k > 0
    ensures |ps| > 0 && ps[0].id == target
  {
    if target in Ids(ps) {
      InIds(ps, target);
      var i :| 0 <= i < |ps| && ps[i].id == target;
      NotCloserThanSelf(target, ps[0].id);
    } else {
      NotCloserThanSelf(target, ps[0].id);
    }
  }

  lemma NotCloserThanSelf(target: NodeId, a: NodeId)
    ensures !Closer(target, a, target)
  {
    CloserAsymmetric(target, a, target);
    if a != target {
      SelfClosest(target, a);
      CloserAsymmetric(target, target, a);
    }
  }

  lemma {:induction false} SortedIdCount(target: NodeId, ps: seq<PeerInfo>)
    requires StrictlySorted(target, ps)
    ensures |Ids(ps)| == |ps|
  {
    if ps != [] {
      var n := |ps| - 1;
      SortedIdCount(target, ps[..n]);
      OneMoreId(target, ps, n);
    }
  }

  lemma OneMoreId(target: NodeId, ps: seq<PeerInfo>, n: nat)
    requires StrictlySorted(target, ps) && |ps| == n + 1
    ensures |Ids(ps)| == |Ids(ps[..n])| + 1
  {
    assert ps == ps[..n] + [ps[n]];
    LastIdNew(target, ps, n);
    NewIdCounts(ps[..n], ps[n]);
  }

  lemma NewIdCounts(ps: seq<PeerInfo>, p: PeerInfo)
    requires p.id !in Ids(ps)
    ensures |Ids(ps + [p])| == |Ids(ps)| + 1
  {
    IdsSnoc(ps, p);
  }

  lemma LastIdNew(target: NodeId, ps: seq<PeerInfo>, n: nat)
    requires StrictlySorted(target, ps) && |ps| == n + 1
    ensures ps[n].id !in Ids(ps[..n])
  {
    InIds(ps[..n], ps[n].id);
    forall i | 0 <= i < n
      ensures ps[..n][i].id != ps[n].id
    {
      CloserAsymmetric(target, ps[i].id, ps[n].id);
    }
  }

  /** So the number kept is min(k, |all|), and the list of IDs is unique. */
  lemma ClosestCount(target: NodeId, k: nat, all: set<NodeId>, ps: seq<PeerInfo>)
    requires IsClosest(target, k, all, ps)
    ensures |ps| == if |all| < k then |all| else k
  {
    SortedIdCount(target, ps);
    SubsetCount(Ids(ps), all);
  }

  lemma SubsetCount(a: set<NodeId>, b: set<NodeId>)
    requires a <= b
    ensures |a| <= |b| && (|a| == |b| ==> a == b)
  {
    assert b == a + (b - a);
  }

  /** Pruning early costs nothing: keeping the k closest of what was kept and what is new is keeping the
      k closest of everything. */
  lemma PruneEarly(target: NodeId, k: nat, seen: set<NodeId>, kept: seq<PeerInfo>, more: set<NodeId>, ps: seq<PeerInfo>)
    requires IsClosest(target, k, seen, kept) && IsClosest(target, k, Ids(kept) + more, ps)
    ensures IsClosest(target, k, seen + more, ps)
  {
    forall x, i | x in seen + more && x !in Ids(ps) && 0 <= i < |ps|
      ensures Closer(target, ps[i].id, x)
    {
      if x !in Ids(kept) + more {
        DroppedStaysOut(target, k, seen, kept, more, ps, x, i);
      }
    }
    if |ps| < k {
      SortedIdCount(target, kept);
      SortedIdCount(target, ps);
      SubsetCount(Ids(kept), Ids(ps));
    }
  }

  // x was dropped earlier, when k others were closer; those k still are.
  lemma DroppedStaysOut(target: NodeId, k: nat, seen: set<NodeId>, kept: seq<PeerInfo>, more: set<NodeId>,
                        ps: seq<PeerInfo>, x: NodeId, i: nat)
    requires IsClosest(target, k, seen, kept) && IsClosest(target, k, Ids(kept) + more, ps)
    requires x in seen && x !in Ids(kept) + more && i < |ps|
    ensures Closer(target, ps[i].id, x)
  {
    assert |kept| == k;
    InIds(ps, ps[i].id);
    CloserTotal(target, ps[i].id, x);
    if Closer(target, x, ps[i].id) {
      forall y | y in Ids(kept)
        ensures y in Ids(ps)
      {
        InIds(kept, y);
        var j :| 0 <= j < |kept| && kept[j].id == y;
        CloserTransitive(target, y, x, ps[i].id);
        CloserAsymmetric(target, y, ps[i].id);
      }
      SortedIdCount(target, kept);
      SortedIdCount(target, ps);
      SubsetCount(Ids(kept), Ids(ps));
      InIds(kept, ps[i].id);
    }
  }

  // ---------- the stable sort ----------

  /** Where p goes in a sorted list: behind everything that is not farther. */
  function Slot(target: NodeId, ps: seq<PeerInfo>, p: PeerInfo): (k: nat)
    ensures k <= |ps|
    ensures k < |ps| ==> Closer(target, p.id, ps[k].id)
    ensures forall i :: 0 <= i < k ==> !Closer(target, p.id, ps[i].id)
  {
    if ps == [] || Closer(target, p.id, ps[0].id) then 0
    else
      var r := Slot(target, ps[1..], p);
      assert forall i :: 1 <= i < r + 1 ==> ps[i] == ps[1..][i - 1];
      r + 1
  }

  function Insert(target: NodeId, ps: seq<PeerInfo>, p: PeerInfo): seq<PeerInfo> {
    var k := Slot(target, ps, p);
    ps[..k] + [p] + ps[k..]
  }

  /** Stable sort by distance (the library's sort, as insertion into a growing prefix). */
  function Sort(target: NodeId, ps: seq<PeerInfo>): (r: seq<PeerInfo>)
    ensures |r| == |ps|
  {
    if ps == [] then [] else Insert(target, Sort(target, ps[..|ps| - 1]), ps[|ps| - 1])
  }

  // The first entry with this ID.
  function First(ps: seq<PeerInfo>, id: NodeId): (k: nat)
    ensures k <= |ps|
    ensures k < |ps| ==> ps[k].id == id
    ensures forall i :: 0 <= i < k ==> ps[i].id != id
  {
    if ps == [] || ps[0].id == id then 0
    else
      var r := First(ps[1..], id);
      assert forall i :: 1 <= i < r + 1 ==> ps[i] == ps[1..][i - 1];
      r + 1
  }

  // The entry a deduplicating reader keeps for an ID: the earliest.
  ghost predicate Keeps(ps: seq<PeerInfo>, p: PeerInfo) {
    First(ps, p.id) < |ps| && ps[First(ps, p.id)] == p
  }

  lemma InsertSorted(target: NodeId, ps: seq<PeerInfo>, p: PeerInfo)
    requires Sorted(target, ps)
    ensures Sorted(target, Insert(target, ps, p))
  {
    var k := Slot(target, ps, p);
    var r := Insert(target, ps, p);
    forall i, j | 0 <= i < j < |r|
      ensures !Closer(target, r[j].id, r[i].id)
    {
      if i == k {
        InsertedBefore(target, ps, p, k, j - 1);
      }
    }
  }

  // What follows the slot is farther than p.
  lemma InsertedBefore(target: NodeId, ps: seq<PeerInfo>, p: PeerInfo, k: nat, j: nat)
    requires Sorted(target, ps) && k <= j < |ps| && Closer(target, p.id, ps[k].id)
    ensures !Closer(target, ps[j].id, p.id)
  {
    CloserAsymmetric(target, p.id, ps[k].id);
    if Closer(target, ps[j].id, p.id) && k < j {
      CloserTransitive(target, ps[j].id, p.id, ps[k].id);
    }
  }

  lemma {:induction false} InsertKeepsFirst(target: NodeId, ps: seq<PeerInfo>, p: PeerInfo, id: NodeId)
    requires Sorted(target, ps)
    ensures var r := Insert(target, ps, p); var f, g := First(ps, id), First(r, id);
            if f < |ps| then g < |r| && r[g] == ps[f]
            else if id == p.id then g < |r| && r[g] == p else g == |r|
  {
    var k := Slot(target, ps, p);
    if First(ps, id) < |ps| && id == p.id {
      SameIdAhead(target, ps, p, k, First(ps, id));
    }
    SplicedFirst(ps, k, p, id, Insert(target, ps, p));
  }

  lemma FirstIs(ps: seq<PeerInfo>, id: NodeId, k: nat)
    requires k <= |ps| && (k < |ps| ==> ps[k].id == id) && forall i :: 0 <= i < k ==> ps[i].id != id
    ensures First(ps, id) == k
  {
  }

  lemma SplicedFirst(ps: seq<PeerInfo>, k: nat, p: PeerInfo, id: NodeId, r: seq<PeerInfo>)
    requires Spliced(ps, k, p, r)
    requires First(ps, id) < |ps| && id == p.id ==> First(ps, id) < k
    ensures var f, g := First(ps, id), First(r, id);
            if f < |ps| then g < |r| && r[g] == ps[f]
            else if id == p.id then g < |r| && r[g] == p else g == |r|
  {
    var f := First(ps, id);
    if f < k {
      FirstIs(r, id, f);
    } else if id == p.id {
      FirstIs(r, id, k);
    } else {
      FirstIs(r, id, f + 1);
    }
  }

  ghost predicate Spliced(ps: seq<PeerInfo>, k: nat, p: PeerInfo, r: seq<PeerInfo>) {
    && k <= |ps| && |r| == |ps| + 1 && r[k] == p
    && (forall i :: 0 <= i < k ==> r[i] == ps[i])
    && (forall i :: k < i < |r| ==> r[i] == ps[i - 1])
  }

  // An earlier entry with the same ID stays ahead: that is stability.
  lemma SameIdAhead(target: NodeId, ps: seq<PeerInfo>, p: PeerInfo, k: nat, f: nat)
    requires Sorted(target, ps) && k <= |ps| && f < |ps| && ps[f].id == p.id
    requires k < |ps| ==> Closer(target, p.id, ps[k].id)
    ensures f < k
  {
    if k <= f {
      CloserAsymmetric(target, p.id, ps[k].id);
    }
  }

  /** The sort sorts, and for every ID the earliest entry stays the earliest. */
  lemma {:induction false} SortCorrect(target: NodeId, ps: seq<PeerInfo>)
    ensures Sorted(target, Sort(target, ps))
    ensures forall id: NodeId :: var r := Sort(target, ps); var f, g := First(ps, id), First(r, id);
              if f < |ps| then g < |r| && r[g] == ps[f] else g == |r|
  {
    if ps != [] {
      var n := |ps| - 1;
      SortCorrect(target, ps[..n]);
      var s := Sort(target, ps[..n]);
      InsertSorted(target, s, ps[n]);
      forall id: NodeId
        ensures var r := Sort(target, ps); var f, g := First(ps, id), First(r, id);
                if f < |ps| then g < |r| && r[g] == ps[f] else g == |r|
      {
        InsertKeepsFirst(target, s, ps[n], id);
        FirstOfPrefix(ps, n, id);
      }
    }
  }

  lemma FirstOfPrefix(ps: seq<PeerInfo>, n: nat, id: NodeId)
    requires n + 1 == |ps|
    ensures First(ps, id) == if First(ps[..n], id) < n then First(ps[..n], id) else if ps[n].id == id then n else n + 1
  {
    var f := First(ps[..n], id);
    assert forall i :: 0 <= i < n ==> ps[..n][i] == ps[i];
  }

  // ---------- dedupeAndPrune ----------

  // out is what remains of the sorted list s after its first i entries: one entry per ID, the earliest.
  ghost predicate Compacted(target: NodeId, s: seq<PeerInfo>, i: nat, out: seq<PeerInfo>)
    requires i <= |s|
  {
    && StrictlySorted(target, out) && Ids(out) == Ids(s[..i])
    && (forall k :: 0 <= k < |out| ==> Keeps(s, out[k]))
    && (i > 0 ==> |out| > 0 && out[|out| - 1].id == s[i - 1].id)
    && |out| <= i
  }

  // The next entry repeats the last ID or goes behind everything.
  lemma NextEntry(target: NodeId, s: seq<PeerInfo>, i: nat, out: seq<PeerInfo>)
    requires i < |s| && Sorted(target, s) && Compacted(target, s, i, out)
    ensures s[i].id in Ids(out) ==> Compacted(target, s, i + 1, out)
    ensures s[i].id !in Ids(out) ==> Compacted(target, s, i + 1, out + [s[i]])
  {
    var p := s[i];
    assert s[..i + 1] == s[..i] + [p];
    IdsSnoc(s[..i], p);
    IdsSnoc(out, p);
    if p.id in Ids(out) {
      RepeatsLast(target, s, i, out);
    } else {
      forall k | 0 <= k < |out|
        ensures Closer(target, out[k].id, p.id)
      {
        InIds(s[..i], out[k].id);
        InIds(out, out[k].id);
        var j :| 0 <= j < i && s[..i][j].id == out[k].id;
        assert !Closer(target, s[i].id, s[j].id);
        CloserTotal(target, p.id, out[k].id);
      }
      NewIsFirst(s, i, out);
    }
  }

  lemma RepeatsLast(target: NodeId, s: seq<PeerInfo>, i: nat, out: seq<PeerInfo>)
    requires i < |s| && Sorted(target, s) && Compacted(target, s, i, out) && s[i].id in Ids(out)
    ensures |out| > 0 && out[|out| - 1].id == s[i].id
  {
    InIds(out, s[i].id);
    var k :| 0 <= k < |out| && out[k].id == s[i].id;
    assert i > 0;
    assert !Closer(target, s[i].id, s[i - 1].id);
    InStrictOrder(target, out, k, |out| - 1);
  }

  lemma InStrictOrder(target: NodeId, ps: seq<PeerInfo>, i: nat, j: nat)
    requires StrictlySorted(target, ps) && i <= j < |ps|
    ensures i < j ==> Closer(target, ps[i].id, ps[j].id)
  {
  }

  lemma NewIsFirst(s: seq<PeerInfo>, i: nat, out: seq<PeerInfo>)
    requires i < |s| && Ids(out) == Ids(s[..i]) && s[i].id !in Ids(out)
    ensures Keeps(s, s[i])
  {
    InIds(s[..i], s[i].id);
    assert forall j :: 0 <= j < i ==> s[..i][j].id != s[i].id;
    FirstIs(s, s[i].id, i);
  }

  // Stopping at n entries, or at the end of the list, leaves the n closest.
  lemma CompactedIsClosest(target: NodeId, s: seq<PeerInfo>, i: nat, n: nat, out: seq<PeerInfo>)
    requires i <= |s| && Sorted(target, s) && Compacted(target, s, i, out)
    requires |out| <= n && (i == |s| || |out| == n) && n > 0
    ensures IsClosest(target, n, Ids(s), out)
  {
    IdsPrefix(s, i);
    assert s[..|s|] == s;
    forall x, k | x in Ids(s) && x !in Ids(out) && 0 <= k < |out|
      ensures Closer(target, out[k].id, x)
    {
      InIds(s, x);
      var j :| 0 <= j < |s| && s[j].id == x;
      InIds(s[..i], x);
      assert forall q :: 0 <= q < i ==> s[..i][q] == s[q];
      FartherThanLast(target, s, i, out, j, k);
    }
  }

  lemma IdsPrefix(s: seq<PeerInfo>, i: nat)
    requires i <= |s|
    ensures Ids(s[..i]) <= Ids(s)
  {
    forall x | x in Ids(s[..i])
      ensures x in Ids(s)
    {
      InIds(s[..i], x);
      InIds(s, x);
      var j :| 0 <= j < i && s[..i][j].id == x;
      assert s[j].id == x;
    }
  }

  lemma FartherThanLast(target: NodeId, s: seq<PeerInfo>, i: nat, out: seq<PeerInfo>, j: nat, k: nat)
    requires 0 < i <= j < |s| && Sorted(target, s) && Compacted(target, s, i, out) && k < |out| && s[j].id !in Ids(out)
    ensures Closer(target, out[k].id, s[j].id)
  {
    var last := out[|out| - 1].id;
    InIds(out, last);
    assert !Closer(target, s[j].id, s[i - 1].id);
    CloserTotal(target, last, s[j].id);
    if k < |out| - 1 {
      CloserTransitive(target, out[k].id, last, s[j].id);
    }
  }

  // One entry per ID among the first i, the earliest.
  function Kept(s: seq<PeerInfo>, i: nat): (out: seq<PeerInfo>)
    requires i <= |s|
    ensures |out| <= i
  {
    if i == 0 then []
    else if s[i - 1].id in Ids(Kept(s, i - 1)) then Kept(s, i - 1) else Kept(s, i - 1) + [s[i - 1]]
  }

  lemma {:induction false} KeptCompacted(target: NodeId, s: seq<PeerInfo>, i: nat)
    requires i <= |s| && Sorted(target, s)
    ensures Compacted(target, s, i, Kept(s, i))
  {
    if i == 0 {
      NothingCompacted(target, s);
    } else {
      KeptCompacted(target, s, i - 1);
      NextKept(target, s, i - 1, Kept(s, i - 1), i, Kept(s, i));
    }
  }

  lemma NothingCompacted(target: NodeId, s: seq<PeerInfo>)
    ensures Compacted(target, s, 0, [])
  {
    assert s[..0] == [];
  }

  lemma NextKept(target: NodeId, s: seq<PeerInfo>, i: nat, out: seq<PeerInfo>, i': nat, out': seq<PeerInfo>)
    requires i < |s| && Sorted(target, s) && Compacted(target, s, i, out) && i' == i + 1
    requires out' == if s[i].id in Ids(out) then out else out + [s[i]]
    ensures Compacted(target, s, i', out')
  {
    NextEntry(target, s, i, out);
  }

  lemma KeptNext(s: seq<PeerInfo>, i: nat, kept: seq<PeerInfo>)
    requires i < |s| && kept == Kept(s, i)
    ensures Kept(s, i + 1) == if s[i].id in Ids(kept) then kept else kept + [s[i]]
    ensures Ids(kept + [s[i]]) == Ids(kept) + {s[i].id}
  {
    IdsSnoc(kept, s[i]);
  }

  // Writes the entries worth keeping to the front of the array that is being read.
  method Compact(a: array<PeerInfo>, n: nat) returns (w: nat, ghost r: nat)
    modifies a
    ensures w <= r <= a.Length && w <= n && (r == a.Length || w == n)
    ensures a[..w] == Kept(old(a[..]), r)
  {
    ghost var sorted := a[..];
    var seen: set<NodeId> := {};
    var i := 0;
    w := 0;
    ghost var kept: seq<PeerInfo> := [];
    while i < a.Length && w < n
      invariant 0 <= w <= i <= a.Length && w <= n && w == |kept|
      invariant Halfway(a[..], w, i, sorted, kept)
      invariant kept == Kept(sorted, i) && seen == Ids(kept)
    {
      var p := a[i];
      KeptNext(sorted, i, kept);
      HalfwayNext(a[..], w, i, sorted, kept);
      if p.id !in seen {
        kept := kept + [p];
        seen := seen + {p.id};
        a[w] := p;
        w := w + 1;
      }
      i := i + 1;
    }
    assert a[..w] == kept;
    r := i;
  }

  // The front holds what is kept, the rest from i on is as it was.
  ghost predicate Halfway(now: seq<PeerInfo>, w: nat, i: nat, sorted: seq<PeerInfo>, kept: seq<PeerInfo>) {
    && w == |kept| && w <= i <= |sorted| == |now|
    && (forall k :: i <= k < |sorted| ==> now[k] == sorted[k])
    && (forall k :: 0 <= k < w ==> now[k] == kept[k])
  }

  lemma HalfwayNext(now: seq<PeerInfo>, w: nat, i: nat, sorted: seq<PeerInfo>, kept: seq<PeerInfo>)
    requires Halfway(now, w, i, sorted, kept) && i < |sorted|
    ensures now[i] == sorted[i] && Halfway(now, w, i + 1, sorted, kept)
    ensures Halfway(now[w := sorted[i]], w + 1, i + 1, sorted, kept + [sorted[i]])
  {
  }

  /** Sorts, collapses repeated IDs and cuts at n. */
  method DedupeAndPrune(peers: seq<PeerInfo>, target: NodeId, n: nat) returns (out: seq<PeerInfo>)
    requires n > 0
    ensures IsClosest(target, n, Ids(peers), out)
    ensures forall k :: 0 <= k < |out| ==> Keeps(peers, out[k])
  {
    var sorted := Sort(target, peers);
    SortCorrect(target, peers);
    var a := new PeerInfo[|sorted|](i requires 0 <= i < |sorted| => sorted[i]);
    assert a[..] == sorted;
    var w; ghost var r;
    w, r := Compact(a, n);
    out := a[..w];
    KeptCompacted(target, sorted, r);
    CompactedIsClosest(target, sorted, r, n, out);
    SameIds(target, peers);
  }

  lemma SameIds(target: NodeId, peers: seq<PeerInfo>)
    ensures Ids(Sort(target, peers)) == Ids(peers)
    ensures forall p :: Keeps(Sort(target, peers), p) ==> Keeps(peers, p)
  {
    SortCorrect(target, peers);
    var s := Sort(target, peers);
    forall x: NodeId
      ensures x in Ids(s) <==> x in Ids(peers)
    {
      InIds(s, x);
      InIds(peers, x);
      assert First(peers, x) < |peers| <==> First(s, x) < |s|;
    }
  }

  // ---------- sort and cut, when the IDs are distinct already ----------

  ghost predicate DistinctIds(ps: seq<PeerInfo>) {
    forall i, j :: 0 <= i < j < |ps| ==> ps[i].id != ps[j].id
  }

  lemma {:induction false} SortDistinct(target: NodeId, ps: seq<PeerInfo>)
    requires DistinctIds(ps)
    ensures DistinctIds(Sort(target, ps))
  {
    if ps != [] {
      var n := |ps| - 1;
      SortDistinct(target, ps[..n]);
      NewToSorted(target, ps, n);
      InsertDistinct(target, Sort(target, ps[..n]), ps[n]);
    }
  }

  lemma NewToSorted(target: NodeId, ps: seq<PeerInfo>, n: nat)
    requires DistinctIds(ps) && n < |ps|
    ensures forall i :: 0 <= i < n ==> Sort(target, ps[..n])[i].id != ps[n].id
  {
    var s := Sort(target, ps[..n]);
    SortMembers(target, ps[..n]);
    forall i | 0 <= i < n
      ensures s[i].id != ps[n].id
    {
      assert s[i] in s;
      var j :| 0 <= j < n && ps[..n][j] == s[i];
      assert ps[j].id != ps[n].id;
    }
  }

  lemma {:induction false} InsertDistinct(target: NodeId, ps: seq<PeerInfo>, p: PeerInfo)
    requires DistinctIds(ps) && forall i :: 0 <= i < |ps| ==> ps[i].id != p.id
    ensures DistinctIds(Insert(target, ps, p))
  {
    SpliceDistinct(ps, Slot(target, ps, p), p, Insert(target, ps, p));
  }

  lemma {:induction false} SortMembers(target: NodeId, ps: seq<PeerInfo>)
    ensures forall x :: x in Sort(target, ps) ==> x in ps
  {
    if ps != [] {
      var n := |ps| - 1;
      SortMembers(target, ps[..n]);
      var s := Sort(target, ps[..n]);
      forall x | x in Sort(target, ps)
        ensures x in ps
      {
        assert x in s || x == ps[n];
      }
    }
  }

  lemma SpliceDistinct(ps: seq<PeerInfo>, k: nat, p: PeerInfo, r: seq<PeerInfo>)
    requires Spliced(ps, k, p, r) && DistinctIds(ps) && forall i :: 0 <= i < |ps| ==> ps[i].id != p.id
    ensures DistinctIds(r)
  {
  }

  lemma PrefixIsClosest(target: NodeId, n: nat, s: seq<PeerInfo>)
    requires Sorted(target, s) && DistinctIds(s)
    ensures IsClosest(target, n, Ids(s), if |s| > n then s[..n] else s)
  {
    var out := if |s| > n then s[..n] else s;
    forall i, j | 0 <= i < j < |s|
      ensures Closer(target, s[i].id, s[j].id)
    {
      CloserTotal(target, s[i].id, s[j].id);
    }
    IdsPrefix(s, |out|);
    assert out == s[..|out|];
    forall x, i | x in Ids(s) && x !in Ids(out) && 0 <= i < |out|
      ensures Closer(target, out[i].id, x)
    {
      InIds(s, x);
      InIds(out, x);
      var j :| 0 <= j < |s| && s[j].id == x;
      assert forall q :: 0 <= q < |out| ==> out[q] == s[q];
      assert i < j;
    }
  }

  /** Sort and cut. */
  function Cut(target: NodeId, n: nat, ps: seq<PeerInfo>): seq<PeerInfo> {
    var s := Sort(target, ps);
    if |s| > n then s[..n] else s
  }

  lemma CutIsClosest(target: NodeId, n: nat, ps: seq<PeerInfo>)
    requires DistinctIds(ps)
    ensures IsClosest(target, n, Ids(ps), Cut(target, n, ps))
    ensures forall i :: 0 <= i < |Cut(target, n, ps)| ==> Cut(target, n, ps)[i] in ps
  {
    SortCorrect(target, ps);
    SortDistinct(target, ps);
    SameIds(target, ps);
    SortMembers(target, ps);
    PrefixIsClosest(target, n, Sort(target, ps));
    var s, c := Sort(target, ps), Cut(target, n, ps);
    forall i | 0 <= i < |c|
      ensures c[i] in ps
    {
      assert c[i] == s[i] && s[i] in s;
    }
  }
}
