/** Merge: what one replica's list becomes when it folds in another's. */
module RgaMerge {
  import opened Bytes
  import opened RgaModel

  // t records a tombstone for this ID.
  predicate Buried(t: Doc, id: bytes) {
    var k := Find(t, id);
    0 < k < |t| && t[k].deleted
  }

  /** The first pass: known nodes that the other side has deleted are tombstoned. */
  function Bury(s: Doc, t: Doc): (r: Doc)
    ensures |r| == |s|
    ensures forall i :: 0 <= i < |s| ==> r[i] == s[i].(deleted := s[i].deleted || Buried(t, s[i].id))
  {
    seq(|s|, i requires 0 <= i < |s| => s[i].(deleted := s[i].deleted || Buried(t, s[i].id)))
  }

  // A missing node is re-anchored at the node ahead of it in the sender's list.
  function Anchored(t: Doc, j: nat): Elem
    requires 1 <= j < |t|
  {
    t[j].(origin := t[j - 1].id)
  }

  /** The receiver's list once the sender's nodes before position j have been folded in. */
  function MergeUpTo(s: Doc, t: Doc, j: nat): Doc
    requires 1 <= j <= |t|
    decreases j
  {
    if j == 1 then Bury(s, t)
    else
      var m := MergeUpTo(s, t, j - 1);
      if Has(s, t[j - 1].id) then m else Place(m, Anchored(t, j - 1))
  }

  function Merge(s: Doc, t: Doc): Doc {
    if |t| == 0 then s else MergeUpTo(s, t, |t|)
  }

  // Nodes of the two lists with equal keys are the same node.
  ghost predicate Compatible(s: Doc, t: Doc) {
    forall i, j :: 1 <= i < |s| && 1 <= j < |t| && SameKey(s[i], t[j]) ==> s[i].id == t[j].id
  }

  lemma BuryWellFormed(s: Doc, t: Doc)
    requires WellFormed(s)
    ensures WellFormed(Bury(s, t))
  {
    var r := Bury(s, t);
    forall i | 1 <= i < |r|
      ensures Par(r, i) < i
    {
      FindSameIds(s, r, s[i].origin);
      assert Par(s, i) < i;
    }
    forall i, j | 1 <= i < j < |r| && r[i].origin == r[j].origin
      ensures Before(r[i], r[j])
    {
      assert Before(s[i], s[j]);
    }
    forall a, c | 0 <= a < c < |r| && r[c].origin == r[a].id
      ensures r[a + 1].origin == r[a].id
    {
      assert s[c].origin == s[a].id;
    }
  }

  // Everything in m comes from s (tombstones added) or is one of the first j nodes of t, re-anchored.
  ghost predicate Drawn(s: Doc, t: Doc, j: nat, m: Doc)
    requires 1 <= j <= |t|
  {
    forall x :: x in m ==> x in Bury(s, t) || exists i :: 1 <= i < j && !Has(s, t[i].id) && x == Anchored(t, i)
  }

  ghost predicate Reached(s: Doc, t: Doc, j: nat, m: Doc)
    requires 1 <= j <= |t|
  {
    && (forall i :: 0 <= i < |s| ==> Has(m, s[i].id))
    && (forall i :: 0 <= i < j ==> Has(m, t[i].id))
  }

  lemma FreshForMerge(s: Doc, t: Doc, j: nat, m: Doc)
    requires WellFormed(s) && WellFormed(t) && Compatible(s, t)
    requires 1 <= j < |t| && Drawn(s, t, j, m) && !Has(s, t[j].id) && |m| > 0 && m[0].id == HeadId
    requires KeysApart(t)
    ensures Distinct(m) ==> Fresh(m, Anchored(t, j))
  {
    var n := Anchored(t, j);
    assert t[j].id != t[0].id;
    if Distinct(m) {
      forall i | 0 <= i < |m|
        ensures m[i].id != n.id && (i > 0 ==> !SameKey(m[i], n))
      {
        assert m[i] in m;
        if m[i] in Bury(s, t) {
          var x :| 0 <= x < |s| && Bury(s, t)[x] == m[i];
          assert s[x].id == m[i].id;
          if i > 0 {
            assert m[i].id != m[0].id;
            assert x > 0;
          }
        } else {
          var x :| 1 <= x < j && !Has(s, t[x].id) && m[i] == Anchored(t, x);
        }
      }
    }
  }

  // Different nodes of one list have different keys.
  ghost predicate KeysApart(t: Doc) {
    forall i, j :: 1 <= i < j < |t| ==> !SameKey(t[i], t[j])
  }

  /** Merge keeps the structural invariant, brings every node of t in one sweep and drops none of s. */
  lemma {:induction false} MergeInvariant(s: Doc, t: Doc, j: nat)
    requires WellFormed(s) && WellFormed(t) && Compatible(s, t) && KeysApart(t) && 1 <= j <= |t|
    ensures WellFormed(MergeUpTo(s, t, j))
    ensures Drawn(s, t, j, MergeUpTo(s, t, j))
    ensures Reached(s, t, j, MergeUpTo(s, t, j))
  {
    if j == 1 {
      BuryWellFormed(s, t);
      ReachedAtStart(s, t);
    } else {
      MergeInvariant(s, t, j - 1);
      var m := MergeUpTo(s, t, j - 1);
      if Has(s, t[j - 1].id) {
        ReachedKnown(s, t, j, m);
      } else {
        FreshForMerge(s, t, j - 1, m);
        PlaceWellFormed(m, Anchored(t, j - 1));
        ReachedStep(s, t, j, m);
      }
    }
  }

  lemma ReachedAtStart(s: Doc, t: Doc)
    requires WellFormed(s) && WellFormed(t)
    ensures Reached(s, t, 1, Bury(s, t))
  {
    forall i | 0 <= i < |s|
      ensures Has(Bury(s, t), s[i].id)
    {
      FindSameIds(s, Bury(s, t), s[i].id);
    }
    assert s[0].id == t[0].id;
  }

  lemma ReachedKnown(s: Doc, t: Doc, j: nat, m: Doc)
    requires 2 <= j <= |t| && Reached(s, t, j - 1, m) && Drawn(s, t, j - 1, m) && Has(s, t[j - 1].id)
    ensures Reached(s, t, j, m) && Drawn(s, t, j, m)
  {
    var k := Find(s, t[j - 1].id);
    assert Has(m, s[k].id);
  }

  lemma ReachedStep(s: Doc, t: Doc, j: nat, m: Doc)
    requires 2 <= j <= |t| && Reached(s, t, j - 1, m) && Drawn(s, t, j - 1, m) && !Has(s, t[j - 1].id)
    requires Distinct(m) && !Has(m, t[j - 1].id)
    ensures Reached(s, t, j, Place(m, Anchored(t, j - 1))) && Drawn(s, t, j, Place(m, Anchored(t, j - 1)))
  {
    var n := Anchored(t, j - 1);
    assert Has(m, t[j - 2].id);
    PlacedContents(m, n, Place(m, n));
  }

  lemma PlacedContents(m: Doc, n: Elem, r: Doc)
    requires Distinct(m) && Has(m, n.origin) && !Has(m, n.id) && r == Place(m, n)
    ensures forall id :: Has(m, id) || id == n.id ==> Has(r, id)
    ensures forall x :: x in r ==> x in m || x == n
  {
    var k := InsertPos(m, Find(m, n.origin), n);
    forall id | Has(m, id) || id == n.id
      ensures Has(r, id)
    {
      FindInserted(m, k, n, id);
    }
  }

  // ---------- complete, monotone, idempotent ----------

  // How many of the sender's nodes before position j the receiver lacks.
  function Missing(s: Doc, t: Doc, j: nat): nat
    requires 1 <= j <= |t|
  {
    if j == 1 then 0 else Missing(s, t, j - 1) + (if Has(s, t[j - 1].id) then 0 else 1)
  }

  /** The IDs become the union, tombstones become the union, and the length counts exactly the nodes
      that were missing: none is left out for want of an anchor. */
  lemma MergeComplete(s: Doc, t: Doc, id: bytes)
    requires WellFormed(s) && WellFormed(t) && Compatible(s, t) && KeysApart(t)
    ensures Has(Merge(s, t), id) <==> Has(s, id) || Has(t, id)
    ensures Buried(Merge(s, t), id) <==> Buried(s, id) || Buried(t, id)
    ensures |Merge(s, t)| == |s| + Missing(s, t, |t|)
  {
    MergeInvariant(s, t, |t|);
    MergeLength(s, t, |t|);
    var m := Merge(s, t);
    var k := Find(m, id);
    if k < |m| {
      assert m[k] in m;
      MergedNode(s, t, k);
    }
    if Has(s, id) {
      assert Has(m, s[Find(s, id)].id);
    }
    if Has(t, id) {
      assert Has(m, t[Find(t, id)].id);
    }
  }

  lemma {:induction false} MergeLength(s: Doc, t: Doc, j: nat)
    requires WellFormed(s) && WellFormed(t) && Compatible(s, t) && KeysApart(t) && 1 <= j <= |t|
    ensures |MergeUpTo(s, t, j)| == |s| + Missing(s, t, j)
  {
    if j > 1 {
      MergeLength(s, t, j - 1);
      MergeInvariant(s, t, j - 1);
      var m := MergeUpTo(s, t, j - 1);
      assert Has(m, t[j - 2].id);
    }
  }

  // Each node of the result is the receiver's own or the sender's, with both sides' tombstones.
  lemma MergedNode(s: Doc, t: Doc, k: nat)
    requires WellFormed(s) && WellFormed(t) && Compatible(s, t) && KeysApart(t) && k < |Merge(s, t)|
    ensures var x := Merge(s, t)[k];
            && (Has(s, x.id) ==> x == s[Find(s, x.id)].(deleted := x.deleted))
            && (!Has(s, x.id) ==> Has(t, x.id) && x == Anchored(t, Find(t, x.id)))
            && (0 < k ==> (x.deleted <==> Buried(s, x.id) || Buried(t, x.id)))
  {
    MergeInvariant(s, t, |t|);
    DrawnNode(s, t, Merge(s, t), k);
  }

  lemma DrawnNode(s: Doc, t: Doc, m: Doc, k: nat)
    requires |s| > 0 && |t| > 0 && s[0].id == HeadId && Distinct(s) && Distinct(t)
    requires k < |m| && m[0].id == HeadId && Distinct(m) && Drawn(s, t, |t|, m)
    ensures var x := m[k];
            && (Has(s, x.id) ==> x == s[Find(s, x.id)].(deleted := x.deleted))
            && (!Has(s, x.id) ==> Has(t, x.id) && 1 <= Find(t, x.id) && x == Anchored(t, Find(t, x.id)))
            && (0 < k ==> (x.deleted <==> Buried(s, x.id) || Buried(t, x.id)))
  {
    var x := m[k];
    assert x in m;
    if x in Bury(s, t) {
      var i :| 0 <= i < |s| && Bury(s, t)[i] == x;
      FromReceiver(s, t, i);
    } else {
      var i :| 1 <= i < |t| && !Has(s, t[i].id) && x == Anchored(t, i);
      FromSender(s, t, i);
    }
    if 0 < k {
      assert x.id != m[0].id;
    }
  }

  lemma FromReceiver(s: Doc, t: Doc, i: nat)
    requires i < |s| && s[0].id == HeadId && Distinct(s)
    ensures var x := Bury(s, t)[i];
            && Has(s, x.id) && x == s[Find(s, x.id)].(deleted := x.deleted)
            && (x.id != HeadId ==> (x.deleted <==> Buried(s, x.id) || Buried(t, x.id)))
  {
    FindAt(s, i);
  }

  lemma FromSender(s: Doc, t: Doc, i: nat)
    requires Distinct(t) && 1 <= i < |t| && !Has(s, t[i].id)
    ensures var x := Anchored(t, i);
            && !Has(s, x.id) && Has(t, x.id) && 1 <= Find(t, x.id) && x == Anchored(t, Find(t, x.id))
            && (x.deleted <==> Buried(s, x.id) || Buried(t, x.id))
  {
    FindAt(t, i);
  }

  /** Merging never reorders what the receiver had. */
  lemma {:induction false} MergeMonotone(s: Doc, t: Doc, j: nat, x: nat, y: nat)
    requires 1 <= j <= |t| && x < y < |s|
    ensures Precedes(MergeUpTo(s, t, j), s[x].id, s[y].id)
  {
    if j == 1 {
      assert Bury(s, t)[x].id == s[x].id && Bury(s, t)[y].id == s[y].id;
    } else {
      MergeMonotone(s, t, j - 1, x, y);
      PlaceKeepsOrder(MergeUpTo(s, t, j - 1), Anchored(t, j - 1), s[x].id, s[y].id);
    }
  }

  /** Merging the same list again changes nothing. */
  lemma MergeIdempotent(s: Doc, t: Doc)
    requires WellFormed(s) && WellFormed(t) && Compatible(s, t) && KeysApart(t)
    ensures Merge(Merge(s, t), t) == Merge(s, t)
  {
    var m := Merge(s, t);
    MergeInvariant(s, t, |t|);
    AllKnown(m, t, |t|);
    var b := Bury(m, t);
    forall k | 0 <= k < |m|
      ensures b[k] == m[k]
    {
      MergedNode(s, t, k);
      if k == 0 {
        FindAt(t, 0);
      }
    }
  }

  lemma {:induction false} AllKnown(m: Doc, t: Doc, j: nat)
    requires 1 <= j <= |t| && forall i :: 0 <= i < |t| ==> Has(m, t[i].id)
    ensures MergeUpTo(m, t, j) == Bury(m, t)
  {
    if j > 1 {
      AllKnown(m, t, j - 1);
    }
  }

  // ---------- the two passes of Merge ----------

  /** The first pass, node by node: every tombstone among the sender's nodes before j is applied. */
  function BuryUpTo(s: Doc, t: Doc, j: nat): Doc
    requires 1 <= j <= |t|
    decreases j
  {
    if j == 1 then s
    else if t[j - 1].deleted then Erase(BuryUpTo(s, t, j - 1), t[j - 1].id) else BuryUpTo(s, t, j - 1)
  }

  ghost predicate BuriedBefore(t: Doc, j: nat, id: bytes)
    requires j <= |t|
  {
    exists x :: 1 <= x < j && t[x].id == id && t[x].deleted
  }

  lemma {:induction false} BuryUpToNodes(s: Doc, t: Doc, j: nat)
    requires Distinct(s) && 1 <= j <= |t|
    ensures |BuryUpTo(s, t, j)| == |s|
    ensures forall i :: 0 <= i < |s| ==>
              BuryUpTo(s, t, j)[i] == s[i].(deleted := s[i].deleted || BuriedBefore(t, j, s[i].id))
  {
    if j > 1 {
      BuryUpToNodes(s, t, j - 1);
      var m, r := BuryUpTo(s, t, j - 1), BuryUpTo(s, t, j);
      forall i | 0 <= i < |s|
        ensures r[i] == s[i].(deleted := s[i].deleted || BuriedBefore(t, j, s[i].id))
      {
        assert BuriedBefore(t, j, s[i].id) <==> BuriedBefore(t, j - 1, s[i].id) || (t[j - 1].id == s[i].id && t[j - 1].deleted);
        assert Distinct(m);
        FindAt(m, i);
      }
    }
  }

  lemma BuryInOnePass(s: Doc, t: Doc)
    requires Distinct(s) && Distinct(t) && |t| > 0
    ensures BuryUpTo(s, t, |t|) == Bury(s, t)
  {
    BuryUpToNodes(s, t, |t|);
    forall i | 0 <= i < |s|
      ensures BuriedBefore(t, |t|, s[i].id) <==> Buried(t, s[i].id)
    {
      if BuriedBefore(t, |t|, s[i].id) {
        var x :| 1 <= x < |t| && t[x].id == s[i].id && t[x].deleted;
        FindAt(t, x);
      }
    }
  }

  /** The second pass's work list: the sender's nodes before j that the receiver lacks, re-anchored. */
  function MissingNodes(s: Doc, t: Doc, j: nat): seq<Elem>
    requires 1 <= j <= |t|
    decreases j
  {
    if j == 1 then []
    else MissingNodes(s, t, j - 1) + (if Has(s, t[j - 1].id) then [] else [Anchored(t, j - 1)])
  }

  // One step of the first pass.
  lemma CollectStep(s: Doc, t: Doc, k: nat)
    requires Distinct(s) && 1 <= k < |t|
    ensures Has(s, t[k].id) && t[k].deleted ==> BuryUpTo(s, t, k + 1) == Erase(BuryUpTo(s, t, k), t[k].id)
    ensures !(Has(s, t[k].id) && t[k].deleted) ==> BuryUpTo(s, t, k + 1) == BuryUpTo(s, t, k)
    ensures MissingNodes(s, t, k + 1) == MissingNodes(s, t, k) + (if Has(s, t[k].id) then [] else [Anchored(t, k)])
  {
    var m := BuryUpTo(s, t, k);
    BuryUpToNodes(s, t, k);
    FindSameIds(s, m, t[k].id);
  }

  lemma {:induction false} MergeIsDelivery(s: Doc, t: Doc, j: nat)
    requires 1 <= j <= |t|
    ensures MergeUpTo(s, t, j) == Deliver(Bury(s, t), MissingNodes(s, t, j))
  {
    if j > 1 {
      MergeIsDelivery(s, t, j - 1);
      var es := MissingNodes(s, t, j);
      if !Has(s, t[j - 1].id) {
        assert es[..|es| - 1] == MissingNodes(s, t, j - 1);
      } else {
        assert es == MissingNodes(s, t, j - 1);
      }
    }
  }

  lemma {:induction false} MissingDistinct(s: Doc, t: Doc, j: nat)
    requires Distinct(t) && 1 <= j <= |t|
    ensures Distinct(MissingNodes(s, t, j))
    ensures forall x :: x in MissingNodes(s, t, j) ==> exists i :: 1 <= i < j && x == Anchored(t, i)
  {
    if j > 1 {
      MissingDistinct(s, t, j - 1);
      var fs := MissingNodes(s, t, j - 1);
      forall i | 0 <= i < |fs|
        ensures fs[i].id != t[j - 1].id
      {
        assert fs[i] in fs;
      }
    }
  }

  lemma PlaceHas(m: Doc, n: Elem, id: bytes)
    requires Has(m, id) || (id == n.id && Has(m, n.origin))
    ensures Has(Place(m, n), id)
  {
    var a := Find(m, n.origin);
    var r := Place(m, n);
    if a < |m| {
      var k := InsertPos(m, a, n);
      if Has(m, id) {
        var f := Find(m, id);
        assert r[if f < k then f else f + 1].id == id;
      } else {
        assert r[k].id == id;
      }
    }
  }

  // Walking the sender's list, every node is there once its turn has passed.
  lemma {:induction false} Arrived(s: Doc, t: Doc, j: nat, i: nat)
    requires 1 <= j <= |t| && i < j && Has(s, t[0].id)
    ensures Has(MergeUpTo(s, t, j), t[i].id)
    decreases j, i
  {
    FindSameIds(s, Bury(s, t), t[i].id);
    if j > 1 {
      var m := MergeUpTo(s, t, j - 1);
      if i < j - 1 {
        Arrived(s, t, j - 1, i);
        PlaceHas(m, Anchored(t, j - 1), t[i].id);
      } else {
        KnownStays(s, t, j - 1, t[i].id);
        Arrived(s, t, j - 1, j - 2);
        PlaceHas(m, Anchored(t, j - 1), t[i].id);
      }
    }
  }

  lemma {:induction false} KnownStays(s: Doc, t: Doc, j: nat, id: bytes)
    requires 1 <= j <= |t|
    ensures Has(s, id) ==> Has(MergeUpTo(s, t, j), id)
  {
    FindSameIds(s, Bury(s, t), id);
    if j > 1 && Has(s, id) {
      KnownStays(s, t, j - 1, id);
      PlaceHas(MergeUpTo(s, t, j - 1), Anchored(t, j - 1), id);
    }
  }

  lemma LastArrived(s: Doc, t: Doc, j: nat)
    requires 1 <= j <= |t| && Has(s, t[0].id)
    ensures Has(Deliver(Bury(s, t), MissingNodes(s, t, j)), t[j - 1].id)
  {
    MergeIsDelivery(s, t, j);
    Arrived(s, t, j, j - 1);
  }

  // The anchor of es[q] is there once the nodes before it are delivered.
  ghost predicate AnchorReady(b: Doc, es: seq<Elem>, q: nat)
    requires q < |es|
  {
    Has(Deliver(b, es[..q]), es[q].origin)
  }

  lemma ReadyInPrefix(b: Doc, fs: seq<Elem>, n: Elem, q: nat)
    requires q < |fs| && AnchorReady(b, fs, q)
    ensures AnchorReady(b, fs + [n], q)
  {
    assert (fs + [n])[..q] == fs[..q];
  }

  lemma ReadyAtEnd(b: Doc, fs: seq<Elem>, n: Elem)
    requires Has(Deliver(b, fs), n.origin)
    ensures AnchorReady(b, fs + [n], |fs|)
  {
    assert (fs + [n])[..|fs|] == fs;
  }

  /** Nothing is ever deferred: when a missing node's turn comes, its anchor is already in place. */
  lemma {:induction false} AnchorInPlace(s: Doc, t: Doc, j: nat, q: nat, es: seq<Elem>)
    requires 1 <= j <= |t| && Has(s, t[0].id) && es == MissingNodes(s, t, j) && q < |es|
    ensures AnchorReady(Bury(s, t), es, q)
    decreases j
  {
    var fs := MissingNodes(s, t, j - 1);
    if q < |fs| {
      AnchorInPlace(s, t, j - 1, q, fs);
      StillReady(s, t, j, q, fs, es);
    } else {
      LastReady(s, t, j, fs, es);
    }
  }

  lemma StillReady(s: Doc, t: Doc, j: nat, q: nat, fs: seq<Elem>, es: seq<Elem>)
    requires 2 <= j <= |t| && fs == MissingNodes(s, t, j - 1) && es == MissingNodes(s, t, j)
    requires q < |fs| && AnchorReady(Bury(s, t), fs, q)
    ensures q < |es| && AnchorReady(Bury(s, t), es, q)
  {
    if Has(s, t[j - 1].id) {
      assert es == fs;
    } else {
      ReadyInPrefix(Bury(s, t), fs, Anchored(t, j - 1), q);
    }
  }

  lemma LastReady(s: Doc, t: Doc, j: nat, fs: seq<Elem>, es: seq<Elem>)
    requires 2 <= j <= |t| && Has(s, t[0].id) && fs == MissingNodes(s, t, j - 1) && es == MissingNodes(s, t, j) && |es| > |fs|
    ensures |es| == |fs| + 1 && AnchorReady(Bury(s, t), es, |fs|)
  {
    LastArrived(s, t, j - 1);
    MissingNext(s, t, j);
    ReadyAtEnd(Bury(s, t), fs, Anchored(t, j - 1));
  }

  lemma MissingNext(s: Doc, t: Doc, j: nat)
    requires 2 <= j <= |t| && |MissingNodes(s, t, j)| > |MissingNodes(s, t, j - 1)|
    ensures MissingNodes(s, t, j) == MissingNodes(s, t, j - 1) + [Anchored(t, j - 1)]
  {
  }
}
