/** A replica merges one that knows everything it knows: when does it end with the same document? */
module RgaCatchUp {
  import opened Bytes
  import opened RgaModel
  import opened RgaMerge

  /** What a user can observe: the nodes after the head in order, without the causal bookkeeping. */
  function Shape(s: Doc): (r: seq<Elem>)
    ensures |r| == if |s| == 0 then 0 else |s| - 1
    ensures forall i :: 0 <= i < |r| ==> r[i] == s[i + 1].(origin := [])
  {
    if |s| == 0 then [] else seq(|s| - 1, i requires 0 <= i < |s| - 1 => s[i + 1].(origin := []))
  }

  lemma {:induction false} SameShapeSameText(s: Doc, t: Doc)
    requires |s| > 0 && |t| > 0 && Shape(s) == Shape(t)
    ensures Text(s) == Text(t)
  {
    var n := |s| - 1;
    assert |Shape(s)| == n && |t| == |s|;
    if n > 0 {
      assert Shape(s)[n - 1] == Shape(t)[n - 1];
      assert Shape(s[..n]) == Shape(s)[..n - 1] == Shape(t)[..n - 1] == Shape(t[..n]);
      SameShapeSameText(s[..n], t[..n]);
    }
  }

  // The two observable parts of a node agree.
  predicate SameFace(a: Elem, b: Elem) { a.(origin := []) == b.(origin := []) }

  lemma FacesMakeShape(s: Doc, t: Doc)
    requires |s| == |t| && forall i :: 1 <= i < |s| ==> SameFace(s[i], t[i])
    ensures Shape(s) == Shape(t)
  {
  }

  // ---------- the setting ----------

  ghost predicate SameMint(a: Elem, b: Elem) {
    a.id == b.id && a.value == b.value && SameKey(a, b)
  }

  /** m holds every node and every tombstone of t, and the same node under each ID. */
  ghost predicate Covers(m: Doc, t: Doc) {
    && (forall i :: 0 <= i < |t| ==> Has(m, t[i].id))
    && (forall i, j :: 1 <= i < |t| && 1 <= j < |m| && t[i].id == m[j].id ==> SameMint(t[i], m[j]) && (t[i].deleted ==> m[j].deleted))
  }

  ghost predicate Rooted(m: Doc) { |m| > 0 && m[0].id == HeadId && Distinct(m) }

  /** m has the nodes of t in t's order. */
  ghost predicate Keeps(t: Doc, m: Doc) {
    forall x, y :: 0 <= x < y < |t| ==> Find(m, t[x].id) < Find(m, t[y].id)
  }

  /** If m[j] is news to t and the node ahead of it has a child in t, that child does not sort before m[j]. */
  ghost predicate Fits(t: Doc, m: Doc, j: nat)
    requires 1 <= j < |m|
  {
    !Has(t, m[j].id) ==> AheadOfChild(t, m[j - 1].id, m[j])
  }

  ghost predicate AheadOfChild(t: Doc, id: bytes, n: Elem) {
    forall p :: 0 <= p < |t| - 1 && ChildBehind(t, p, id) ==> !Before(t[p + 1], n)
  }

  // The node with this ID is at p and is directly followed by a child of its own.
  ghost predicate ChildBehind(t: Doc, p: nat, id: bytes)
    requires p + 1 < |t|
  {
    t[p].id == id && t[p + 1].origin == id
  }

  // ---------- folding stays distinct ----------

  // Every node of e is t's or one of the first j of m.
  ghost predicate Gathered(t: Doc, m: Doc, j: nat, e: Doc)
    requires j <= |m|
  {
    forall k :: 0 <= k < |e| ==> Has(t, e[k].id) || Among(m, j, e[k].id)
  }

  ghost predicate Among(m: Doc, j: nat, id: bytes)
    requires j <= |m|
  {
    exists i :: 1 <= i < j && m[i].id == id
  }

  lemma {:induction false} MergeDistinct(t: Doc, m: Doc, j: nat)
    requires Rooted(t) && Rooted(m) && 1 <= j <= |m|
    ensures Rooted(MergeUpTo(t, m, j)) && Gathered(t, m, j, MergeUpTo(t, m, j))
  {
    if j == 1 {
      BuryRooted(t, m);
    } else {
      MergeDistinct(t, m, j - 1);
      PlacedDistinct(t, m, j - 1, MergeUpTo(t, m, j - 1), MergeUpTo(t, m, j));
    }
  }

  lemma BuryRooted(t: Doc, m: Doc)
    requires Rooted(t) && |m| > 0
    ensures Rooted(Bury(t, m)) && Gathered(t, m, 1, Bury(t, m))
  {
    forall k | 0 <= k < |t| ensures Has(t, Bury(t, m)[k].id) {
      FindAt(t, k);
    }
  }

  lemma PlacedDistinct(t: Doc, m: Doc, j: nat, e: Doc, r: Doc)
    requires Rooted(m) && 1 <= j < |m| && Rooted(e) && Gathered(t, m, j, e)
    requires r == if Has(t, m[j].id) then e else Place(e, Anchored(m, j))
    ensures Rooted(r) && Gathered(t, m, j + 1, r)
  {
    GatheredMore(t, m, j, e);
    var n := Anchored(m, j);
    var a := Find(e, n.origin);
    if !Has(t, m[j].id) && a < |e| {
      NotGathered(t, m, j, e);
      FindInserted(e, InsertPos(e, a, n), n, n.id);
      assert Among(m, j + 1, n.id);
    }
  }

  lemma GatheredMore(t: Doc, m: Doc, j: nat, e: Doc)
    requires j < |m| && Gathered(t, m, j, e)
    ensures Gathered(t, m, j + 1, e)
  {
    forall k | 0 <= k < |e| && !Has(t, e[k].id) ensures Among(m, j + 1, e[k].id) {
      var i :| 1 <= i < j && m[i].id == e[k].id;
    }
  }

  lemma NotGathered(t: Doc, m: Doc, j: nat, e: Doc)
    requires Distinct(m) && 1 <= j < |m| && Gathered(t, m, j, e) && !Has(t, m[j].id)
    ensures !Has(e, m[j].id)
  {
    forall k | 0 <= k < |e| ensures e[k].id != m[j].id {
      if !Has(t, e[k].id) {
        var i :| 1 <= i < j && m[i].id == e[k].id;
      }
    }
  }

  // ---------- in step ----------

  // Where m has the nodes of t.
  ghost predicate Positions(t: Doc, m: Doc, pos: seq<nat>) {
    |pos| == |t| && forall x :: 0 <= x < |t| ==> pos[x] < |m| && m[pos[x]].id == t[x].id
  }

  ghost predicate Increasing(pos: seq<nat>) {
    forall x, y :: 0 <= x < y < |pos| ==> pos[x] < pos[y]
  }

  // The first q positions, and only those, are below j.
  ghost predicate Cut(pos: seq<nat>, j: nat, q: nat) {
    q <= |pos| && (forall x :: 0 <= x < q ==> pos[x] < j) && (forall x :: q <= x < |pos| ==> j <= pos[x])
  }

  // b is t up to tombstones, with m's face wherever m has the node.
  ghost predicate Faced(b: Doc, t: Doc, m: Doc, pos: seq<nat>)
    requires Positions(t, m, pos)
  {
    && |b| == |t|
    && (forall x :: 0 <= x < |t| ==> b[x] == t[x].(deleted := b[x].deleted))
    && (forall x :: 1 <= x < |t| ==> SameFace(b[x], m[pos[x]]))
  }

  // e, which has folded in the first j nodes of m, starts with them and goes on with b from q.
  ghost predicate InStep(b: Doc, m: Doc, j: nat, q: nat, e: Doc) {
    && 1 <= j <= |m| && q <= |b| && |e| == j + |b| - q
    && (forall i :: 0 <= i < j ==> e[i].id == m[i].id && (i > 0 ==> SameFace(e[i], m[i])))
    && (forall i :: j <= i < |e| ==> e[i] == b[q + i - j])
  }

  lemma StartInStep(t: Doc, m: Doc, b: Doc, pos: seq<nat>)
    requires Rooted(t) && Rooted(m) && Positions(t, m, pos) && Faced(b, t, m, pos)
    ensures InStep(b, m, 1, 1, b) && Cut(pos, 1, 1)
  {
    assert m[pos[0]].id == m[0].id;
    forall x | 1 <= x < |pos| ensures 1 <= pos[x] {
      assert t[0].id != t[x].id;
    }
  }

  // The next node of m, if t knows it, is the next of t.
  lemma KnownStep(b: Doc, m: Doc, pos: seq<nat>, j: nat, q: nat, e: Doc, x: nat)
    requires Increasing(pos) && Cut(pos, j, q) && x < |pos| == |b| && pos[x] == j && 1 <= j < |m|
    requires InStep(b, m, j, q, e) && SameFace(b[x], m[j])
    ensures x == q && Cut(pos, j + 1, q + 1) && InStep(b, m, j + 1, q + 1, e)
  {
    OrderedPair(pos, q, x);
    forall y | q + 1 <= y < |pos| ensures j + 1 <= pos[y] {
      OrderedPair(pos, q, y);
    }
    assert e[j] == b[q];
  }

  lemma OrderedPair(pos: seq<nat>, x: nat, y: nat)
    requires Increasing(pos) && x <= y < |pos|
    ensures x < y ==> pos[x] < pos[y]
  {
  }

  // Where a node unknown to t is spliced: right behind its anchor, unless a child there sorts ahead.
  lemma NewPoint(e: Doc, j: nat, n: Elem)
    requires Distinct(e) && 1 <= j <= |e| && e[j - 1].id == n.origin
    ensures Find(e, n.origin) == j - 1
    ensures j < |e| && e[j].origin == n.origin && Before(e[j], n) ==> InsertPos(e, j - 1, n) > j
    ensures !(j < |e| && e[j].origin == n.origin && Before(e[j], n)) ==> InsertPos(e, j - 1, n) == j
  {
    FindAt(e, j - 1);
  }

  // A node unknown to t goes right behind its anchor, unless the next node of t is a child that sorts ahead.
  lemma NewStep(b: Doc, m: Doc, pos: seq<nat>, j: nat, q: nat, e: Doc)
    requires Cut(pos, j, q) && 1 <= j < |m| && |pos| == |b| && InStep(b, m, j, q, e) && Distinct(e)
    requires forall x :: 0 <= x < |pos| ==> pos[x] != j
    requires !(q < |b| && b[q].origin == m[j - 1].id && Before(b[q], m[j]))
    ensures Cut(pos, j + 1, q) && InStep(b, m, j + 1, q, Place(e, Anchored(m, j)))
  {
    var n := Anchored(m, j);
    NewPoint(e, j, n);
    assert j < |e| ==> e[j] == b[q];
    NewInStep(b, m, j, q, e, n);
  }

  lemma NewInStep(b: Doc, m: Doc, j: nat, q: nat, e: Doc, n: Elem)
    requires 1 <= j < |m| && InStep(b, m, j, q, e) && n == Anchored(m, j)
    ensures InStep(b, m, j + 1, q, InsertAt(e, j, n))
  {
  }

  // The child in t of a node of m is the next node of t, so fitting is a matter of that one.
  lemma FitsNext(t: Doc, m: Doc, pos: seq<nat>, j: nat, q: nat)
    requires Rooted(t) && OriginsPrecede(t) && Distinct(m) && Positions(t, m, pos) && Increasing(pos)
    requires 1 <= j < |m| && 1 <= q && Cut(pos, j, q) && !Has(t, m[j].id)
    ensures Fits(t, m, j) <==> !(q < |t| && t[q].origin == m[j - 1].id && Before(t[q], m[j]))
  {
    var id := m[j - 1].id;
    if q < |t| && t[q].origin == id {
      var p := Par(t, q);
      assert p < q && t[p].id == id && pos[p] == j - 1;
      OrderedPair(pos, p, q - 1);
      assert ChildBehind(t, q - 1, id);
    }
    forall p | 0 <= p < |t| - 1 && ChildBehind(t, p, id) ensures p + 1 == q {
      assert pos[p] == j - 1;
      OrderedPair(pos, p, p + 1);
    }
  }

  // ---------- out of step ----------

  // Two nodes stand one way round in e and the other in m.
  ghost predicate Crossed(e: Doc, m: Doc) {
    exists u, v :: Precedes(e, u, v) && Precedes(m, v, u)
  }

  lemma CrossedDiffers(e: Doc, m: Doc)
    requires Crossed(e, m) && Rooted(m) && Rooted(e)
    ensures Shape(e) != Shape(m)
  {
    var u, v :| Precedes(e, u, v) && Precedes(m, v, u);
    var i, j :| 0 <= i < j < |e| && e[i].id == u && e[j].id == v;
    var k, l :| 0 <= k < l < |m| && m[k].id == v && m[l].id == u;
    if Shape(e) == Shape(m) {
      SameIds(e, m, i);
      SameIds(e, m, j);
    }
  }

  lemma SameIds(e: Doc, m: Doc, i: nat)
    requires |e| > 0 && |m| > 0 && e[0].id == m[0].id && Shape(e) == Shape(m) && i < |e|
    ensures i < |m| && m[i].id == e[i].id
  {
    assert |Shape(e)| == |Shape(m)|;
    if i > 0 {
      assert Shape(e)[i - 1] == Shape(m)[i - 1];
    }
  }

  lemma PlacedCrossed(e: Doc, n: Elem, m: Doc)
    requires Crossed(e, m)
    ensures Crossed(Place(e, n), m)
  {
    var u, v :| Precedes(e, u, v) && Precedes(m, v, u);
    PlaceKeepsOrder(e, n, u, v);
  }

  lemma PlacedBehind(e: Doc, j: nat, n: Elem)
    requires Distinct(e) && 1 <= j < |e| && e[j - 1].id == n.origin && e[j].origin == n.origin && Before(e[j], n)
    ensures Precedes(Place(e, n), e[j].id, n.id)
  {
    NewPoint(e, j, n);
    var r, k := Place(e, n), InsertPos(e, j - 1, n);
    assert r[j].id == e[j].id && r[k].id == n.id;
  }

  // A node that does not fit ends up behind the child it should precede.
  lemma MisfitStep(b: Doc, m: Doc, pos: seq<nat>, j: nat, q: nat, e: Doc)
    requires Cut(pos, j, q) && 1 <= j < |m| && |pos| == |b| && InStep(b, m, j, q, e) && Distinct(e)
    requires q < |b| && pos[q] != j && pos[q] < |m| && m[pos[q]].id == b[q].id
    requires b[q].origin == m[j - 1].id && Before(b[q], m[j])
    ensures Crossed(Place(e, Anchored(m, j)), m)
  {
    assert e[j] == b[q];
    PlacedBehind(e, j, Anchored(m, j));
    assert Precedes(m, m[j].id, b[q].id);
  }

  // ---------- the whole merge ----------

  ghost predicate FitsBefore(t: Doc, m: Doc, j: nat)
    requires j <= |m|
  {
    forall i :: 1 <= i < j ==> Fits(t, m, i)
  }

  // One more node of m: still in step if it fits, crossed if it does not.
  lemma OneStep(t: Doc, m: Doc, b: Doc, pos: seq<nat>, j: nat, q: nat, e: Doc, r: Doc) returns (q': nat)
    requires Rooted(t) && OriginsPrecede(t) && Rooted(m) && Positions(t, m, pos) && Increasing(pos) && Faced(b, t, m, pos)
    requires 1 <= j < |m| && 1 <= q && Cut(pos, j, q) && InStep(b, m, j, q, e) && Distinct(e)
    requires r == if Has(t, m[j].id) then e else Place(e, Anchored(m, j))
    ensures Fits(t, m, j) ==> 1 <= q' && Cut(pos, j + 1, q') && InStep(b, m, j + 1, q', r)
    ensures !Fits(t, m, j) ==> Crossed(r, m)
  {
    q' := q;
    if Has(t, m[j].id) {
      assert Fits(t, m, j);
      var x := Find(t, m[j].id);
      KnownAt(t, m, b, pos, j, x);
      KnownStep(b, m, pos, j, q, e, x);
      q' := q + 1;
    } else {
      NewOrMisfit(t, m, b, pos, j, q, e);
    }
  }

  lemma NewOrMisfit(t: Doc, m: Doc, b: Doc, pos: seq<nat>, j: nat, q: nat, e: Doc)
    requires Rooted(t) && OriginsPrecede(t) && Distinct(m) && Positions(t, m, pos) && Increasing(pos) && Faced(b, t, m, pos)
    requires 1 <= j < |m| && 1 <= q && Cut(pos, j, q) && InStep(b, m, j, q, e) && Distinct(e) && !Has(t, m[j].id)
    ensures Fits(t, m, j) ==> Cut(pos, j + 1, q) && InStep(b, m, j + 1, q, Place(e, Anchored(m, j)))
    ensures !Fits(t, m, j) ==> Crossed(Place(e, Anchored(m, j)), m)
  {
    FitsNext(t, m, pos, j, q);
    if Fits(t, m, j) {
      NewStep(b, m, pos, j, q, e);
    } else {
      MisfitStep(b, m, pos, j, q, e);
    }
  }

  lemma KnownAt(t: Doc, m: Doc, b: Doc, pos: seq<nat>, j: nat, x: nat)
    requires Rooted(t) && Distinct(m) && Positions(t, m, pos) && Faced(b, t, m, pos) && 1 <= j < |m| && x < |t| && t[x].id == m[j].id
    requires m[0].id == HeadId
    ensures pos[x] == j && SameFace(b[x], m[j])
  {
    assert m[pos[x]].id == m[j].id;
    assert m[0].id != m[j].id;
  }

  // In step as long as every node fits, crossed from the first misfit on.
  ghost predicate Standing(t: Doc, m: Doc, b: Doc, pos: seq<nat>, j: nat, q: nat, e: Doc)
    requires j <= |m|
  {
    && (FitsBefore(t, m, j) ==> 1 <= q && Cut(pos, j, q) && InStep(b, m, j, q, e))
    && (!FitsBefore(t, m, j) ==> Crossed(e, m))
  }

  /** As long as every node fits, the list folded so far starts like m; from the first misfit on, it and m
      have two nodes the other way round. */
  lemma {:induction false} InStepOrCrossed(t: Doc, m: Doc, b: Doc, pos: seq<nat>, j: nat) returns (q: nat)
    requires Rooted(t) && OriginsPrecede(t) && Rooted(m) && Positions(t, m, pos) && Increasing(pos) && Faced(b, t, m, pos)
    requires b == Bury(t, m) && 1 <= j <= |m|
    ensures Standing(t, m, b, pos, j, q, MergeUpTo(t, m, j))
  {
    if j == 1 {
      StartStanding(t, m, b, pos);
      q := 1;
    } else {
      var before := InStepOrCrossed(t, m, b, pos, j - 1);
      q := StepTo(t, m, b, pos, j - 1, j, before);
    }
  }

  lemma StartStanding(t: Doc, m: Doc, b: Doc, pos: seq<nat>)
    requires Rooted(t) && Rooted(m) && Positions(t, m, pos) && Faced(b, t, m, pos)
    ensures Standing(t, m, b, pos, 1, 1, b)
  {
    StartInStep(t, m, b, pos);
    assert FitsBefore(t, m, 1);
  }

  lemma StepTo(t: Doc, m: Doc, b: Doc, pos: seq<nat>, j: nat, j': nat, q: nat) returns (q': nat)
    requires Rooted(t) && OriginsPrecede(t) && Rooted(m) && Positions(t, m, pos) && Increasing(pos) && Faced(b, t, m, pos)
    requires 1 <= j < |m| && j' == j + 1 && Standing(t, m, b, pos, j, q, MergeUpTo(t, m, j))
    ensures Standing(t, m, b, pos, j', q', MergeUpTo(t, m, j'))
  {
    var e, r := FoldNext(t, m, j, j');
    q' := NextTo(t, m, b, pos, j, j', q, e, r);
  }

  // One more node of m folded into t.
  ghost predicate Folded(t: Doc, n: Elem, e: Doc, r: Doc) {
    Distinct(e) && r == if Has(t, n.id) then e else Place(e, n)
  }

  lemma FoldNext(t: Doc, m: Doc, j: nat, j': nat) returns (e: Doc, r: Doc)
    requires Rooted(t) && Rooted(m) && 1 <= j < |m| && j' == j + 1
    ensures e == MergeUpTo(t, m, j) && r == MergeUpTo(t, m, j') && Folded(t, Anchored(m, j), e, r)
  {
    e, r := MergeUpTo(t, m, j), MergeUpTo(t, m, j');
    MergeDistinct(t, m, j);
  }

  lemma NextTo(t: Doc, m: Doc, b: Doc, pos: seq<nat>, j: nat, j': nat, q: nat, e: Doc, r: Doc) returns (q': nat)
    requires Rooted(t) && OriginsPrecede(t) && Rooted(m) && Positions(t, m, pos) && Increasing(pos) && Faced(b, t, m, pos)
    requires 1 <= j < |m| && j' == j + 1 && Folded(t, Anchored(m, j), e, r)
    requires Standing(t, m, b, pos, j, q, e)
    ensures Standing(t, m, b, pos, j', q', r)
  {
    q' := q;
    FitsUpTo(t, m, j);
    if FitsBefore(t, m, j) {
      q' := OneStep(t, m, b, pos, j, q, e, r);
    } else {
      PlacedCrossed(e, Anchored(m, j), m);
    }
  }

  lemma FitsUpTo(t: Doc, m: Doc, j: nat)
    requires 1 <= j < |m|
    ensures FitsBefore(t, m, j + 1) <==> FitsBefore(t, m, j) && Fits(t, m, j)
  {
  }

  lemma OtherWayRound(m: Doc, u: bytes, v: bytes)
    requires u != v && Find(m, v) <= Find(m, u) < |m|
    ensures Precedes(m, v, u)
  {
    assert m[Find(m, v)].id == v && m[Find(m, u)].id == u;
  }

  lemma DisorderDiffers(t: Doc, m: Doc)
    requires Rooted(t) && OriginsPrecede(t) && Rooted(m) && Covers(m, t) && !Keeps(t, m)
    ensures Crossed(Merge(t, m), m)
  {
    var x, y :| 0 <= x < y < |t| && Find(m, t[x].id) >= Find(m, t[y].id);
    MergeMonotone(t, m, |m|, x, y);
    assert t[x].id != t[y].id && Has(m, t[x].id) && Has(m, t[y].id);
    OtherWayRound(m, t[x].id, t[y].id);
  }

  // The positions of t's nodes in m, and their faces after the tombstones of m are applied.
  lemma TakePositions(t: Doc, m: Doc) returns (pos: seq<nat>)
    requires Rooted(t) && Rooted(m) && Covers(m, t)
    ensures Positions(t, m, pos) && Faced(Bury(t, m), t, m, pos)
    ensures Increasing(pos) <==> Keeps(t, m)
  {
    pos := seq(|t|, x requires 0 <= x < |t| => Find(m, t[x].id));
    forall x | 0 <= x < |t| ensures pos[x] < |m| && m[pos[x]].id == t[x].id {
      CoveredAt(m, t, x);
    }
    forall x | 1 <= x < |t| ensures SameFace(Bury(t, m)[x], m[pos[x]]) {
      assert t[x].id != t[0].id;
    }
  }

  /** A replica t that merges a list m holding all that t holds ends with m's document if and only if m has
      t's nodes in t's order and every node of m that is news to t fits. */
  lemma CatchUpIff(t: Doc, m: Doc)
    requires Rooted(t) && OriginsPrecede(t) && Rooted(m) && Covers(m, t)
    ensures Shape(Merge(t, m)) == Shape(m) <==> Keeps(t, m) && FitsBefore(t, m, |m|)
  {
    MergeDistinct(t, m, |m|);
    if !Keeps(t, m) {
      DisorderDiffers(t, m);
      CrossedDiffers(Merge(t, m), m);
    } else {
      var pos := TakePositions(t, m);
      var q := InStepOrCrossed(t, m, Bury(t, m), pos, |m|);
      if FitsBefore(t, m, |m|) {
        AllFolded(t, m, pos, q);
        FacesMakeShape(Merge(t, m), m);
      } else {
        CrossedDiffers(Merge(t, m), m);
      }
    }
  }

  lemma AllFolded(t: Doc, m: Doc, pos: seq<nat>, q: nat)
    requires Positions(t, m, pos) && Cut(pos, |m|, q)
    ensures q == |t|
  {
    PositionAt(t, m, pos, q);
  }

  lemma PositionAt(t: Doc, m: Doc, pos: seq<nat>, x: nat)
    requires Positions(t, m, pos) && x <= |t|
    ensures x < |t| ==> pos[x] < |m|
  {
  }

  lemma CoveredAt(m: Doc, t: Doc, i: nat)
    requires Covers(m, t) && i <= |t|
    ensures i < |t| ==> Find(m, t[i].id) < |m|
  {
    assert i < |t| ==> Has(m, t[i].id);
  }

  // ---------- nothing new ----------

  /** Once the writer covers the reader, merging back changes nothing: what differs stays different. */
  lemma MergeBackIdle(s: Doc, t: Doc)
    requires WellFormed(s) && WellFormed(t) && Compatible(s, t) && KeysApart(t) && Covers(t, s)
    ensures Merge(t, Merge(s, t)) == t && Merge(Merge(s, t), t) == Merge(s, t)
  {
    var m := Merge(s, t);
    MergeIdempotent(s, t);
    MergeInvariant(s, t, |t|);
    forall i | 0 <= i < |m| ensures Has(t, m[i].id) {
      MergeComplete(s, t, m[i].id);
      KnownToWriter(s, t, m[i].id);
    }
    AllKnown(t, m, |m|);
    forall k | 0 <= k < |t| ensures Bury(t, m)[k] == t[k] {
      MergeComplete(s, t, t[k].id);
      BuriedByWriter(s, t, k);
    }
  }

  lemma KnownToWriter(s: Doc, t: Doc, id: bytes)
    requires Covers(t, s) && (Has(s, id) || Has(t, id))
    ensures Has(t, id)
  {
    if Has(s, id) {
      CoveredAt(t, s, Find(s, id));
    }
  }

  lemma BuriedByWriter(s: Doc, t: Doc, k: nat)
    requires WellFormed(t) && |s| > 0 && s[0].id == HeadId && Covers(t, s) && k < |t|
    ensures Buried(s, t[k].id) || Buried(t, t[k].id) ==> t[k].deleted
  {
    FindAt(t, k);
    if k == 0 {
      assert Find(s, HeadId) == 0;
    }
  }
}
