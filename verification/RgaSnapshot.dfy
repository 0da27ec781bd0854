/** Two replicas that merge each other's snapshots, whatever nodes they have in common. */
module RgaSnapshot {
  import opened Bytes
  import opened RgaModel
  import opened RgaMerge
  import opened RgaCatchUp
  import opened RgaExchange

  // ---------- lists in the same order ----------

  // e from p on is, ID by ID, t from a on.
  ghost predicate Aligned(e: Doc, p: nat, t: Doc, a: nat) {
    p <= |e| && a <= |t| && |e| - p == |t| - a
    && forall x, y :: p <= x < |e| && a <= y < |t| && x - p == y - a ==> e[x].id == t[y].id
  }

  ghost predicate AllIn(t: Doc, e: Doc, p: nat) {
    forall x :: p <= x < |e| ==> Has(t, e[x].id)
  }

  lemma {:induction false} InOrder(t: Doc, e: Doc, x: nat, y: nat)
    requires Keeps(t, e) && x < |t| && y < |t|
    ensures x < y ==> Find(e, t[x].id) < Find(e, t[y].id)
  {
  }

  // One position further along.
  lemma {:induction false} AlignedNext(e: Doc, p: nat, t: Doc, a: nat)
    requires Distinct(t) && Distinct(e) && Keeps(t, e) && AllIn(t, e, p) && AllIn(e, t, 0)
    requires p < |e| && a < |t| && e[p].id == t[a].id
    ensures p + 1 < |e| <==> a + 1 < |t|
    ensures p + 1 < |e| && a + 1 < |t| ==> e[p + 1].id == t[a + 1].id
  {
    FindAt(e, p);
    if a + 1 < |t| {
      assert Find(e, t[a].id) < Find(e, t[a + 1].id);
      assert Has(e, t[a + 1].id);
    }
    if p + 1 < |e| {
      assert Has(t, e[p + 1].id);
      var y := Find(t, e[p + 1].id);
      FindAt(e, p + 1);
      InOrder(t, e, y, a);
      if a + 1 < |t| {
        InOrder(t, e, a + 1, y);
      }
    }
  }

  // A list whose rest holds only nodes of t, in t's order, goes on as t does.
  lemma {:induction false} AlignedFrom(e: Doc, p: nat, t: Doc, a: nat)
    requires Distinct(t) && Distinct(e) && Keeps(t, e) && AllIn(t, e, p) && AllIn(e, t, 0)
    requires p < |e| && a < |t| && e[p].id == t[a].id
    ensures Aligned(e, p, t, a)
    decreases |e| - p
  {
    AlignedNext(e, p, t, a);
    if p + 1 < |e| {
      AlignedFrom(e, p + 1, t, a + 1);
      AlignedBack(e, p, t, a);
    }
  }

  lemma {:induction false} AlignedBack(e: Doc, p: nat, t: Doc, a: nat)
    requires p < |e| && a < |t| && e[p].id == t[a].id && Aligned(e, p + 1, t, a + 1)
    ensures Aligned(e, p, t, a)
  {
  }

  // ---------- where a node lands ----------

  // The same keys and origins too.
  ghost predicate SameTail(e: Doc, p: nat, t: Doc, a: nat) {
    Aligned(e, p, t, a)
    && forall x, y :: p < x < |e| && a < y < |t| && x - p == y - a ==> e[x].origin == t[y].origin && SameKey(e[x], t[y])
  }

  lemma {:induction false} SiblingShifted(e: Doc, p: nat, t: Doc, a: nat, parent: bytes, d: nat, n: Elem)
    requires SameTail(e, p, t, a) && 0 < d <= |t| - a
    ensures NextSibling(e, parent, p + d, n) - p == NextSibling(t, parent, a + d, n) - a
    decreases |t| - a - d
  {
    if d < |t| - a {
      assert e[p + d].origin == t[a + d].origin && SameKey(e[p + d], t[a + d]);
      SiblingShifted(e, p, t, a, parent, d + 1, n);
    }
  }

  lemma {:induction false} PosShifted(e: Doc, p: nat, t: Doc, a: nat, n: Elem)
    requires SameTail(e, p, t, a) && p < |e| && a < |t|
    ensures InsertPos(e, p, n) - p == InsertPos(t, a, n) - a
  {
    assert e[p].id == t[a].id;
    if a + 1 < |t| {
      assert e[p + 1].origin == t[a + 1].origin;
      SiblingShifted(e, p, t, a, t[a].id, 1, n);
    }
  }

  /** The node that s[j], which t lacks, goes behind when t merges s: the one ahead of it in s if t lacks that too;
      otherwise where t's own children of that one tell. */
  function Spot(t: Doc, s: Doc, j: nat): bytes
    requires 1 <= j < |s|
  {
    var a := Find(t, s[j - 1].id);
    if a < |t| then t[InsertPos(t, a, Anchored(s, j)) - 1].id else s[j - 1].id
  }

  /** t and s are lists that replicas of one run can hold. */
  ghost predicate Mergeable(t: Doc, s: Doc) {
    && WellFormed(t) && WellFormed(s) && Compatible(t, s) && Compatible(s, t)
    && KeysApart(t) && KeysApart(s) && SameNodes(t, s) && SameNodes(s, t)
  }

  // A node of t in the merge is t's, up to a tombstone.
  lemma {:induction false} OwnNode(t: Doc, s: Doc, j: nat, e: Doc, x: nat, y: nat)
    requires WellFormed(t) && WellFormed(s) && 1 <= j <= |s| && Drawn(t, s, j, e) && x < |e| && y < |t| && e[x].id == t[y].id
    ensures e[x].origin == t[y].origin && SameKey(e[x], t[y])
  {
    assert e[x] in e;
    FindAt(t, y);
    assert e[x] in Bury(t, s);
    var z :| 0 <= z < |t| && Bury(t, s)[z] == e[x];
    assert z == y;
  }

  lemma {:induction false} KeptSoFar(t: Doc, s: Doc, j: nat, e: Doc)
    requires 1 <= j <= |s| && e == MergeUpTo(t, s, j) && Distinct(e)
    ensures Keeps(t, e)
  {
    forall x, y | 0 <= x < y < |t| ensures Find(e, t[x].id) < Find(e, t[y].id) {
      MergeMonotone(t, s, j, x, y);
      var k, l :| 0 <= k < l < |e| && e[k].id == t[x].id && e[l].id == t[y].id;
      FindAt(e, k);
      FindAt(e, l);
    }
  }

  // Behind a node that both have, only nodes of t are left when its turn comes.
  lemma {:induction false} OnlyOwnBehind(t: Doc, s: Doc, w: Doc, j: nat, e: Doc, a: nat, p: nat)
    requires Distinct(s) && 1 <= j < |s| && Gathered(t, s, j, e) && Distinct(e) && Distinct(t)
    requires Keeps(e, w) && Keeps(s, w) && a < |t| && t[a].id == s[j - 1].id && p < |e| && e[p].id == t[a].id
    ensures AllIn(t, e, p)
  {
    FindAt(t, a);
    forall x | p <= x < |e| && Among(s, j, e[x].id) ensures Has(t, e[x].id) {
    }
  }

  lemma {:induction false} TailsMatch(t: Doc, s: Doc, w: Doc, j: nat, e: Doc, a: nat, p: nat)
    requires WellFormed(t) && WellFormed(s) && 1 <= j < |s| && e == MergeUpTo(t, s, j) && Distinct(e)
    requires Drawn(t, s, j, e) && Reached(t, s, j, e) && Gathered(t, s, j, e)
    requires Keeps(e, w) && Keeps(s, w) && a < |t| && t[a].id == s[j - 1].id && p < |e| && e[p].id == t[a].id
    ensures SameTail(e, p, t, a)
  {
    KeptSoFar(t, s, j, e);
    OnlyOwnBehind(t, s, w, j, e, a, p);
    AlignedFrom(e, p, t, a);
    forall x, y | p < x < |e| && a < y < |t| && x - p == y - a ensures e[x].origin == t[y].origin && SameKey(e[x], t[y]) {
      OwnNode(t, s, j, e, x, y);
    }
  }

  // Nothing hangs off a node that has just been brought in.
  lemma {:induction false} NoChildYet(t: Doc, s: Doc, j: nat, e: Doc, p: nat)
    requires WellFormed(t) && WellFormed(s) && 1 <= j < |s| && Drawn(t, s, j, e) && Distinct(e) && |e| > 0 && e[0].id == HeadId
    requires !Has(t, s[j - 1].id) && p + 1 < |e|
    ensures e[p + 1].origin != s[j - 1].id
  {
    var x := e[p + 1];
    assert x in e && x.id != e[0].id;
    if x in Bury(t, s) {
      var z :| 0 <= z < |t| && Bury(t, s)[z] == x;
      assert z > 0 && Par(t, z) < z;
    } else {
      var i :| 1 <= i < j && !Has(t, s[i].id) && x == Anchored(s, i);
      assert s[i - 1].id != s[j - 1].id;
    }
  }

  // Behind a node that t has.
  lemma {:induction false} SpotKnown(t: Doc, s: Doc, j: nat, e: Doc, n: Elem, a: nat, p: nat)
    requires 1 <= j < |s| && n == Anchored(s, j) && a == Find(t, s[j - 1].id) < |t| && p == Find(e, s[j - 1].id) < |e|
    requires SameTail(e, p, t, a) && Distinct(e)
    ensures Has(e, Spot(t, s, j)) && InsertPos(e, p, n) == Find(e, Spot(t, s, j)) + 1
  {
    PosShifted(e, p, t, a, n);
    var k := InsertPos(e, p, n) - 1;
    assert e[k].id == Spot(t, s, j);
    FindAt(e, k);
  }

  // Behind a node that t lacks.
  lemma {:induction false} SpotNew(t: Doc, s: Doc, j: nat, e: Doc, n: Elem, p: nat)
    requires WellFormed(t) && WellFormed(s) && 1 <= j < |s| && Drawn(t, s, j, e) && Distinct(e) && |e| > 0 && e[0].id == HeadId
    requires n == Anchored(s, j) && !Has(t, s[j - 1].id) && p == Find(e, s[j - 1].id) < |e|
    ensures Has(e, Spot(t, s, j)) && InsertPos(e, p, n) == Find(e, Spot(t, s, j)) + 1
  {
    if p + 1 < |e| {
      NoChildYet(t, s, j, e, p);
    }
  }

  // The merge so far, and that it agrees with w.
  ghost predicate Underway(t: Doc, s: Doc, j: nat, e: Doc, w: Doc) {
    && WellFormed(t) && WellFormed(s) && 1 <= j <= |s| && e == MergeUpTo(t, s, j) && WellFormed(e)
    && Drawn(t, s, j, e) && Reached(t, s, j, e) && Gathered(t, s, j, e) && Keeps(e, w) && Keeps(s, w)
  }

  /** Each missing node goes directly behind its spot, as long as nothing brought in so far is out of order. */
  lemma {:induction false} PlacedAtSpot(t: Doc, s: Doc, w: Doc, j: nat, e: Doc, n: Elem)
    requires Underway(t, s, j, e, w) && j < |s| && n == Anchored(s, j)
    ensures Has(e, Spot(t, s, j)) && Place(e, n) == InsertAt(e, Find(e, Spot(t, s, j)) + 1, n)
  {
    var p := Find(e, s[j - 1].id);
    assert Has(e, s[j - 1].id);
    var a := Find(t, s[j - 1].id);
    if a < |t| {
      TailsMatch(t, s, w, j, e, a, p);
      SpotKnown(t, s, j, e, n, a, p);
    } else {
      SpotNew(t, s, j, e, n, p);
    }
  }

  // ---------- a merge that follows w ----------

  ghost predicate Lands(t: Doc, s: Doc, w: Doc, j: nat)
    requires 1 <= j < |s|
  {
    !Has(t, s[j].id) ==> Find(w, s[j].id) == Find(w, Spot(t, s, j)) + 1
  }

  /** Every node of s that t lacks stands, in w, directly behind the spot where t would put it. */
  ghost predicate AllLand(t: Doc, s: Doc, w: Doc) {
    forall j :: 1 <= j < |s| ==> Lands(t, s, w, j)
  }

  // The new node's place in w, against each node of e.
  lemma {:induction false} AgainstNew(e: Doc, w: Doc, q: nat, id: bytes, x: nat)
    requires q < |e| && x < |e| && Keeps(e, w) && Has(w, e[x].id) && e[x].id != id
    requires Has(w, id) && Find(w, id) == Find(w, e[q].id) + 1
    ensures if x <= q then Find(w, e[x].id) < Find(w, id) else Find(w, id) < Find(w, e[x].id)
  {
    InOrder(e, w, x, q);
    InOrder(e, w, q, x);
  }

  lemma {:induction false} InsertKeeps(e: Doc, w: Doc, q: nat, n: Elem, r: Doc)
    requires q < |e| && Keeps(e, w) && AllIn(w, e, 0) && !Has(e, n.id) && r == InsertAt(e, q + 1, n)
    requires Has(w, n.id) && Find(w, n.id) == Find(w, e[q].id) + 1
    ensures Keeps(r, w)
  {
    forall x, y | 0 <= x < y < |r| ensures Find(w, r[x].id) < Find(w, r[y].id) {
      var x', y' := if x <= q then x else x - 1, if y <= q then y else y - 1;
      assert x != q + 1 ==> r[x] == e[x'];
      assert y != q + 1 ==> r[y] == e[y'];
      if x == q + 1 {
        AgainstNew(e, w, q, n.id, y');
      } else if y == q + 1 {
        AgainstNew(e, w, q, n.id, x');
      } else {
        InOrder(e, w, x', y');
      }
    }
  }

  // A missing node, its spot, and that it is new.
  ghost predicate Ready(t: Doc, s: Doc, j: nat, e: Doc)
    requires 1 <= j < |s|
  {
    var n, x := Anchored(s, j), Spot(t, s, j);
    !Has(t, s[j].id) ==> !Has(e, n.id) && Has(e, x) && Place(e, n) == InsertAt(e, Find(e, x) + 1, n)
  }

  lemma {:induction false} SpotReady(t: Doc, s: Doc, w: Doc, j: nat, e: Doc)
    requires Underway(t, s, j, e, w) && j < |s|
    ensures Ready(t, s, j, e)
  {
    if !Has(t, s[j].id) {
      PlacedAtSpot(t, s, w, j, e, Anchored(s, j));
      NotGathered(t, s, j, e);
    }
  }

  lemma {:induction false} StepFollows(t: Doc, s: Doc, w: Doc, j: nat, e: Doc, r: Doc)
    requires 1 <= j < |s| && Ready(t, s, j, e) && Keeps(e, w) && AllIn(w, e, 0) && AllIn(w, s, 0) && Lands(t, s, w, j)
    requires r == if Has(t, s[j].id) then e else Place(e, Anchored(s, j))
    ensures Keeps(r, w)
  {
    if !Has(t, s[j].id) {
      InsertKeeps(e, w, Find(e, Spot(t, s, j)), Anchored(s, j), r);
    }
  }

  // What the merge of mergeable lists keeps, whatever w is.
  lemma {:induction false} MergedSoFar(t: Doc, s: Doc, j: nat, e: Doc)
    requires Mergeable(t, s) && 1 <= j <= |s| && e == MergeUpTo(t, s, j)
    ensures WellFormed(e) && Drawn(t, s, j, e) && Reached(t, s, j, e) && Gathered(t, s, j, e)
  {
    MergeInvariant(t, s, j);
    MergeDistinct(t, s, j);
  }

  lemma {:induction false} GatheredIn(t: Doc, s: Doc, j: nat, e: Doc, w: Doc)
    requires j <= |s| && Gathered(t, s, j, e) && AllIn(w, t, 0) && AllIn(w, s, 0)
    ensures AllIn(w, e, 0)
  {
    forall x | 0 <= x < |e| ensures Has(w, e[x].id) {
      if Has(t, e[x].id) {
        assert Has(w, t[Find(t, e[x].id)].id);
      }
    }
  }

  lemma {:induction false} MergeFollows(t: Doc, s: Doc, w: Doc, j: nat)
    requires Mergeable(t, s) && 1 <= j <= |s| && AllIn(w, t, 0) && AllIn(w, s, 0)
    requires Keeps(t, w) && Keeps(s, w) && AllLand(t, s, w)
    ensures Keeps(MergeUpTo(t, s, j), w)
  {
    if j == 1 {
      BuriedKeeps(t, s, w);
    } else {
      MergeFollows(t, s, w, j - 1);
      var e := MergeUpTo(t, s, j - 1);
      MergedSoFar(t, s, j - 1, e);
      GatheredIn(t, s, j - 1, e, w);
      SpotReady(t, s, w, j - 1, e);
      StepFollows(t, s, w, j - 1, e, MergeUpTo(t, s, j));
    }
  }

  lemma {:induction false} BuriedKeeps(t: Doc, s: Doc, w: Doc)
    requires Keeps(t, w)
    ensures Keeps(Bury(t, s), w)
  {
  }

  // ---------- a merge that ends in w's order ----------

  // The merge of the first j nodes of s agrees with w.
  ghost predicate Agrees(t: Doc, s: Doc, w: Doc, j: nat)
    requires 1 <= j <= |s|
  {
    Keeps(MergeUpTo(t, s, j), w)
  }

  lemma {:induction false} Downward(p: nat -> bool, j: nat, last: nat)
    requires j <= last && p(last) && forall i: nat, k: nat :: j <= i && k == i + 1 && k <= last && p(k) ==> p(i)
    ensures p(j)
    decreases last
  {
    if j < last {
      Downward(p, j, last - 1);
    }
  }

  lemma {:induction false} KeepsBack(t: Doc, s: Doc, w: Doc, j: nat, last: nat)
    requires 1 <= j <= last <= |s| && Agrees(t, s, w, last)
    ensures Agrees(t, s, w, j)
  {
    var p := (k: nat) => 1 <= k <= |s| && Agrees(t, s, w, k);
    forall i: nat, k: nat | j <= i && k == i + 1 && k <= last && p(k) ensures p(i) {
      OneBack(t, s, w, i, k);
    }
    Downward(p, j, last);
  }

  lemma {:induction false} OneBack(t: Doc, s: Doc, w: Doc, j: nat, j': nat)
    requires 1 <= j < |s| && j' == j + 1 && Agrees(t, s, w, j')
    ensures Agrees(t, s, w, j)
  {
    var e, r := MergeUpTo(t, s, j), MergeUpTo(t, s, j');
    MergeStep(t, s, j, e, r);
    PlaceBack(e, Anchored(s, j), w, r);
  }

  lemma {:induction false} MergeStep(t: Doc, s: Doc, j: nat, e: Doc, r: Doc)
    requires 1 <= j < |s| && e == MergeUpTo(t, s, j) && r == MergeUpTo(t, s, j + 1)
    ensures r == e || r == Place(e, Anchored(s, j))
  {
  }

  lemma {:induction false} PlaceBack(e: Doc, n: Elem, w: Doc, r: Doc)
    requires (r == e || r == Place(e, n)) && Keeps(r, w)
    ensures Keeps(e, w)
  {
    var a := Find(e, n.origin);
    if r != e && a < |e| {
      InsertBack(e, InsertPos(e, a, n), n, w, r);
    }
  }

  lemma {:induction false} InsertBack(e: Doc, k: nat, n: Elem, w: Doc, r: Doc)
    requires k <= |e| && r == InsertAt(e, k, n) && Keeps(r, w)
    ensures Keeps(e, w)
  {
    forall x, y | 0 <= x < y < |e| ensures Find(w, e[x].id) < Find(w, e[y].id) {
      var x', y' := if x < k then x else x + 1, if y < k then y else y + 1;
      assert r[x'] == e[x] && r[y'] == e[y];
      InOrder(r, w, x', y');
    }
  }

  lemma {:induction false} NotBetween(r: Doc, w: Doc, q: nat, s: Doc, j: nat, y: nat)
    requires Distinct(w) && q + 1 < |r| && Keeps(r, w) && j < |s| && r[q + 1].id == s[j].id && Keeps(s, w) && y < |w|
    requires Has(r, w[y].id) || Later(s, j, w[y].id)
    ensures y <= Find(w, r[q].id) || Find(w, r[q + 1].id) <= y
  {
    FindAt(w, y);
    if Has(r, w[y].id) {
      Apart(r, w, q, Find(r, w[y].id));
    } else {
      var i :| j < i < |s| && s[i].id == w[y].id;
      InOrder(s, w, j, i);
    }
  }

  lemma {:induction false} Apart(r: Doc, w: Doc, q: nat, z: nat)
    requires q + 1 < |r| && Keeps(r, w) && z < |r|
    ensures Find(w, r[z].id) <= Find(w, r[q].id) || Find(w, r[q + 1].id) <= Find(w, r[z].id)
  {
    InOrder(r, w, z, q);
    InOrder(r, w, q + 1, z);
  }

  // Two neighbours in r, with nothing between them in w that r does not have.
  lemma {:induction false} StillNeighbours(r: Doc, w: Doc, q: nat, s: Doc, j: nat)
    requires Distinct(w) && q + 1 < |r| && Keeps(r, w) && AllIn(w, r, 0) && j < |s| && r[q + 1].id == s[j].id && Keeps(s, w)
    requires forall y :: 0 <= y < |w| ==> Has(r, w[y].id) || Later(s, j, w[y].id)
    ensures Find(w, r[q + 1].id) == Find(w, r[q].id) + 1
  {
    InOrder(r, w, q, q + 1);
    assert Has(w, r[q + 1].id);
    NotBetween(r, w, q, s, j, Find(w, r[q].id) + 1);
  }

  ghost predicate Later(s: Doc, j: nat, id: bytes) {
    exists i :: j < i < |s| && s[i].id == id
  }

  // Every node of w is one of t's or s's.
  ghost predicate FromBoth(t: Doc, s: Doc, w: Doc) {
    forall y :: 0 <= y < |w| ==> Has(t, w[y].id) || Has(s, w[y].id)
  }

  lemma {:induction false} HereOrLater(t: Doc, s: Doc, w: Doc, j: nat, r: Doc)
    requires FromBoth(t, s, w) && 1 <= j < |s| && Reached(t, s, j + 1, r)
    ensures forall y :: 0 <= y < |w| ==> Has(r, w[y].id) || Later(s, j, w[y].id)
  {
    forall y | 0 <= y < |w| ensures Has(r, w[y].id) || Later(s, j, w[y].id) {
      if Has(t, w[y].id) {
        assert Has(r, t[Find(t, w[y].id)].id);
      } else {
        var i := Find(s, w[y].id);
        assert i <= j ==> Has(r, s[i].id);
      }
    }
  }

  lemma {:induction false} StepLanded(t: Doc, s: Doc, w: Doc, j: nat)
    requires Mergeable(t, s) && 1 <= j < |s| && Distinct(w) && AllIn(w, t, 0) && AllIn(w, s, 0) && FromBoth(t, s, w)
    requires Keeps(Merge(t, s), w) && Keeps(s, w)
    ensures Lands(t, s, w, j)
  {
    var e, r, n := MergeUpTo(t, s, j), MergeUpTo(t, s, j + 1), Anchored(s, j);
    KeepsBack(t, s, w, j, |s|);
    KeepsBack(t, s, w, j + 1, |s|);
    MergedSoFar(t, s, j, e);
    MergedSoFar(t, s, j + 1, r);
    SpotReady(t, s, w, j, e);
    if !Has(t, s[j].id) {
      GatheredIn(t, s, j + 1, r, w);
      HereOrLater(t, s, w, j, r);
      SpotLanded(t, s, w, j, e, r, n);
    }
  }

  lemma {:induction false} SpotLanded(t: Doc, s: Doc, w: Doc, j: nat, e: Doc, r: Doc, n: Elem)
    requires 1 <= j < |s| && n == Anchored(s, j) && !Has(t, s[j].id) && Ready(t, s, j, e) && r == Place(e, n)
    requires Distinct(w) && Keeps(r, w) && Keeps(s, w) && AllIn(w, r, 0)
    requires forall y :: 0 <= y < |w| ==> Has(r, w[y].id) || Later(s, j, w[y].id)
    ensures Find(w, s[j].id) == Find(w, Spot(t, s, j)) + 1
  {
    var q := Find(e, Spot(t, s, j));
    assert r[q] == e[q] && r[q + 1] == n;
    StillNeighbours(r, w, q, s, j);
  }

  // ---------- both snapshots ----------

  lemma {:induction false} MergeHolds(s: Doc, t: Doc, m: Doc)
    requires Mergeable(t, s) && m == Merge(s, t)
    ensures WellFormed(m) && AllIn(m, s, 0) && AllIn(m, t, 0) && FromBoth(t, s, m) && Keeps(s, m)
  {
    MergedSoFar(s, t, |t|, m);
    KeptSoFar(s, t, |t|, m);
    forall y | 0 <= y < |m| ensures Has(t, m[y].id) || Has(s, m[y].id) {
      MergedNode(s, t, y);
    }
  }

  lemma {:induction false} BothHold(s: Doc, t: Doc, m: Doc, m': Doc)
    requires Mergeable(t, s) && m == Merge(s, t) && m' == Merge(t, s)
    ensures AllIn(m, m', 0) && AllIn(m', m, 0)
  {
    MergeHolds(s, t, m);
    MergeHolds(t, s, m');
    FromBothIn(t, s, m, m');
    FromBothIn(s, t, m', m);
  }

  lemma {:induction false} FromBothIn(t: Doc, s: Doc, w: Doc, v: Doc)
    requires FromBoth(t, s, w) && AllIn(v, t, 0) && AllIn(v, s, 0)
    ensures AllIn(v, w, 0)
  {
    forall y | 0 <= y < |w| ensures Has(v, w[y].id) {
      if Has(t, w[y].id) {
        assert Has(v, t[Find(t, w[y].id)].id);
      } else {
        assert Has(v, s[Find(s, w[y].id)].id);
      }
    }
  }

  // A node wears the same face in both merges.
  lemma {:induction false} BothFaces(s: Doc, t: Doc, m: Doc, m': Doc, x: nat, y: nat)
    requires Mergeable(t, s) && m == Merge(s, t) && m' == Merge(t, s) && WellFormed(m) && WellFormed(m')
    requires 1 <= x < |m| && 1 <= y < |m'| && m[x].id == m'[y].id
    ensures SameFace(m[x], m'[y])
  {
    MergedNode(s, t, x);
    MergedNode(t, s, y);
    assert m[x].id != m[0].id;
    var i, j := Find(s, m[x].id), Find(t, m[x].id);
    assert i < |s| ==> i > 0;
    assert j < |t| ==> j > 0;
  }

  lemma {:induction false} SameOrderSameShape(s: Doc, t: Doc, m: Doc, m': Doc)
    requires Mergeable(t, s) && m == Merge(s, t) && m' == Merge(t, s) && Keeps(m', m)
    ensures Shape(m) == Shape(m')
  {
    MergeHolds(s, t, m);
    MergeHolds(t, s, m');
    BothHold(s, t, m, m');
    AlignedFrom(m, 0, m', 0);
    forall i | 1 <= i < |m| ensures SameFace(m[i], m'[i]) {
      assert m[i].id == m'[i].id;
      BothFaces(s, t, m, m', i, i);
    }
    FacesMakeShape(m, m');
  }

  lemma {:induction false} SameShapeSameOrder(m: Doc, m': Doc, t: Doc)
    requires WellFormed(m) && WellFormed(m') && Shape(m) == Shape(m') && Keeps(t, m')
    ensures Keeps(m', m) && (AllIn(m', t, 0) ==> Keeps(t, m))
  {
    assert |Shape(m)| == |Shape(m')|;
    forall x | 0 <= x < |m'| ensures Find(m, m'[x].id) == x {
      SameIds(m', m, x);
      FindAt(m, x);
    }
    if AllIn(m', t, 0) {
      forall x, y | 0 <= x < y < |t| ensures Find(m, t[x].id) < Find(m, t[y].id) {
        assert Has(m', t[x].id) && Has(m', t[y].id);
        InOrder(t, m', x, y);
      }
    }
  }

  /** Two replicas that merge each other's snapshots, with any nodes in common: they agree if and only if the one
      merge kept the other's order, and has every node the other lacks directly behind the spot where the other
      puts it. */
  lemma {:induction false} SharedSnapshotIff(s: Doc, t: Doc)
    requires Mergeable(t, s)
    ensures var m := Merge(s, t);
            Shape(m) == Shape(Merge(t, s)) <==> Keeps(t, m) && AllLand(t, s, m)
  {
    var m, m' := Merge(s, t), Merge(t, s);
    MergeHolds(s, t, m);
    MergeHolds(t, s, m');
    if Keeps(t, m) && AllLand(t, s, m) {
      MergeFollows(t, s, m, |s|);
      SameOrderSameShape(s, t, m, m');
    }
    if Shape(m) == Shape(m') {
      SameShapeSameOrder(m, m', t);
      forall j | 1 <= j < |s| ensures Lands(t, s, m, j) {
        StepLanded(t, s, m, j);
      }
    }
  }
}
