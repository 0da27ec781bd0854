/** The linked list itself: nodes spliced through next and prev, two sentinels, a length and a clock.
    Every method is tied to the value-level document it leaves behind. */
module RgaList {
  import opened Bytes
  import opened RgaModel
  import opened RgaMerge
  import RgaIds
  import RgaSystem

  // "tail", the ID of the tail sentinel.
  const TailId: bytes := [116, 97, 105, 108]
  const MaxTimestamp: int := 0x7fff_ffff_ffff_ffff

  class Node {
    var id: bytes
    var value: bytes
    var ts: int
    var author: bytes
    var deleted: bool
    var origin: bytes
    var next: Node?
    var prev: Node?

    constructor (e: Elem)
      ensures View() == e && next == null && prev == null
    {
      id, value, ts, author, deleted, origin := e.id, e.value, e.ts, e.author, e.deleted, e.origin;
      next, prev := null, null;
    }

    function View(): Elem
      reads this
    {
      Elem(id, value, ts, author, deleted, origin)
    }
  }

  // A node waiting to be spliced in, with the ID of the node it goes after.
  datatype Pending = Pending(node: Elem, prevID: bytes) {
    function Placed(): Elem {
      node.(origin := prevID)
    }
  }

  function PlacedAll(ps: seq<Pending>): (es: seq<Elem>)
    ensures |es| == |ps| && forall i :: 0 <= i < |es| ==> es[i] == ps[i].Placed()
  {
    seq(|ps|, i requires 0 <= i < |ps| => ps[i].Placed())
  }

  lemma PlacedAllSnoc(ps: seq<Pending>, p: Pending)
    ensures PlacedAll(ps + [p]) == PlacedAll(ps) + [p.Placed()]
  {
  }

  /** What every list built by the operations satisfies: unique IDs, none empty or a sentinel's. */
  ghost predicate Proper(s: Doc) {
    Distinct(s) && forall i :: 0 <= i < |s| ==> s[i].id != [] && s[i].id != TailId
  }

  class Rga {
    const name: bytes
    const head: Node
    const tail: Node
    var length: int
    var clock: nat
    ghost var nodes: seq<Node>  // head, ..., tail
    ghost var doc: Doc  // the document: every node but the tail sentinel, in order

    // The chain of nodes from head to tail, linked consistently in both directions.
    ghost predicate Chained()
      reads this`nodes, nodes
    {
      && |nodes| >= 2 && nodes[0] == head && nodes[|nodes| - 1] == tail
      && (forall i, j :: 0 <= i < j < |nodes| ==> nodes[i] != nodes[j])
      && (forall i :: 0 <= i < |nodes| - 1 ==> nodes[i].next == nodes[i + 1])
      && (forall i :: 1 <= i < |nodes| ==> nodes[i].prev == nodes[i - 1])
      && tail.next == null && head.id == HeadId && tail.id == TailId
    }

    ghost predicate Linked()
      reads this`nodes, this`doc, nodes
    {
      && Chained()
      && |doc| == |nodes| - 1 && (forall i :: 0 <= i < |doc| ==> doc[i] == nodes[i].View())
    }

    ghost predicate Valid()
      reads this`nodes, this`doc, this`length, nodes
    {
      Linked() && length == |nodes| - 2
    }

    // The two lists share no node.
    ghost predicate Apart(other: Rga)
      reads this`nodes, other`nodes
    {
      forall i :: 0 <= i < |other.nodes| ==> other.nodes[i] !in nodes
    }

    ghost function State(): RgaSystem.Replica
      reads this`doc, this`clock
    {
      RgaSystem.Replica(doc, clock)
    }

    constructor (nodeID: bytes)
      ensures Valid() && fresh(nodes) && name == nodeID
      ensures State() == RgaSystem.Empty
    {
      name := nodeID;
      var h := new Node(Head);
      var t := new Node(Elem(TailId, [], MaxTimestamp, [], false, []));
      head, tail := h, t;
      length, clock := 0, 0;
      nodes, doc := [h, t], [Head];
      new;
      head.next := tail;
      tail.prev := head;
    }

    /** The node with this ID, the head included; null when there is none. */
    method FindNode(id: bytes) returns (n: Node?, ghost k: nat)
      requires Linked()
      ensures k == Find(doc, id)
      ensures if Has(doc, id) then n == nodes[Find(doc, id)] && n.id == id else n == null
    {
      if id == head.id {
        return head, 0;
      }
      var curr := head.next;
      k := 1;
      while curr != null && curr != tail
        invariant 1 <= k < |nodes| && curr == nodes[k]
        invariant forall i :: 0 <= i < k ==> nodes[i].id != id
        decreases |nodes| - k
      {
        if curr.id == id {
          FoundAt(doc, id, k);
          return curr, k;
        }
        curr := curr.next;
        k := k + 1;
      }
      FoundAt(doc, id, k);
      n := null;
    }

    // The scan: past each sibling that sorts earlier, together with everything up to the next sibling.
    method SplicePoint(after: Node, ghost a: nat, node: Node) returns (insertAfter: Node, ghost k: nat)
      requires Linked() && a < |nodes| - 1 && nodes[a] == after
      ensures k == InsertPos(doc, a, node.View())
      ensures insertAfter == nodes[InsertPos(doc, a, node.View()) - 1]
    {
      ghost var s := doc;
      ghost var v := node.View();
      insertAfter := after;
      var curr := after.next;
      k := a + 1;
      while curr != null && curr != tail
        invariant a < k < |nodes| && curr == nodes[k] && insertAfter == nodes[k - 1]
        invariant k < |s| ==> InsertPos(s, a, v) == if s[k].origin == s[a].id then NextSibling(s, s[a].id, k, v) else k
        invariant k == |s| ==> InsertPos(s, a, v) == k
        decreases |nodes| - k
      {
        assert curr.View() == s[k];
        if curr.origin != after.id || !Before(curr.View(), node.View()) {
          break;
        }
        while curr.next != null && curr.next != tail && curr.next.origin != after.id
          invariant a < k < |s| && curr == nodes[k]
          invariant InsertPos(s, a, v) == NextSibling(s, s[a].id, k + 1, v)
          decreases |nodes| - k
        {
          curr := curr.next;
          k := k + 1;
          assert curr.View() == s[k];
        }
        insertAfter := curr;
        curr := curr.next;
        k := k + 1;
      }
    }

    // Links node in between insertAfter and its successor, in both directions.
    static method Relink(insertAfter: Node, node: Node, ghost succ: Node)
      requires insertAfter != node && succ != node && insertAfter.next == succ
      modifies node`prev, node`next, insertAfter`next, succ`prev
      ensures node.prev == insertAfter && node.next == succ && insertAfter.next == node && succ.prev == node
      ensures insertAfter != succ ==> succ.next == old(succ.next) && insertAfter.prev == old(insertAfter.prev)
    {
      node.prev := insertAfter;
      node.next := insertAfter.next;
      insertAfter.next := node;
      if node.next != null {
        node.next.prev := node;
      }
    }

    method SpliceLinks(insertAfter: Node, ghost k: nat, node: Node)
      requires Chained() && 1 <= k < |nodes| && insertAfter == nodes[k - 1] && node !in nodes
      modifies this`nodes, nodes`prev, nodes`next, node`prev, node`next
      ensures Chained() && nodes == old(nodes)[..k] + [node] + old(nodes)[k..]
    {
      ghost var was := nodes;
      assert insertAfter.next == nodes[k];
      Relink(insertAfter, node, nodes[k]);
      nodes := was[..k] + [node] + was[k..];
      SplicedNodes(was, k, node, nodes);
    }

    method Splice(insertAfter: Node, ghost k: nat, node: Node)
      requires Linked() && 1 <= k < |nodes| && insertAfter == nodes[k - 1] && node !in nodes
      modifies this`nodes, this`doc, nodes`prev, nodes`next, node`prev, node`next
      ensures Linked()
      ensures forall i :: 0 <= i < |nodes| ==> nodes[i] in old(nodes) || nodes[i] == node
      ensures doc == InsertAt(old(doc), k, old(node.View()))
    {
      ghost var was, s := nodes, doc;
      SpliceLinks(insertAfter, k, node);
      SplicedNodes(was, k, node, nodes);
      doc := InsertAt(s, k, node.View());
      forall i | 0 <= i < |doc|
        ensures doc[i] == nodes[i].View()
      {
        if i < k {
          assert doc[i] == s[i] && nodes[i] == was[i];
        } else if i > k {
          assert doc[i] == s[i - 1] && nodes[i] == was[i - 1];
        }
      }
    }

    /** Splices node among the children of after; the scan and the subtree skip land exactly where
        InsertPos says. */
    method InsertOrdered(after: Node, ghost a: nat, node: Node) returns (ghost k: nat)
      requires Linked() && a < |nodes| - 1 && nodes[a] == after && node !in nodes
      modifies this`nodes, this`doc, nodes`prev, nodes`next, node`prev, node`next
      ensures Linked()
      ensures k == InsertPos(old(doc), a, old(node.View()))
      ensures forall i :: 0 <= i < |nodes| ==> nodes[i] in old(nodes) || nodes[i] == node
      ensures doc == InsertAt(old(doc), k, old(node.View()))
    {
      var insertAfter;
      insertAfter, k := SplicePoint(after, a, node);
      Splice(insertAfter, k, node);
    }

    // Allocates a node for e, splices it behind after and counts it.
    method AddAfter(after: Node, ghost a: nat, e: Elem)
      requires Valid() && a < |nodes| - 1 && nodes[a] == after
      modifies this`nodes, this`doc, this`length, nodes`prev, nodes`next
      ensures Valid()
      ensures doc == InsertAt(old(doc), InsertPos(old(doc), a, e), e)
      ensures forall i :: 0 <= i < |nodes| ==> nodes[i] in old(nodes) || fresh(nodes[i])
    {
      var node := new Node(e);
      ghost var k := InsertOrdered(after, a, node);
      length := length + 1;
    }

    // The node a local insert goes after.
    method AnchorFor(afterID: bytes) returns (after: Node, ghost a: nat)
      requires Linked()
      ensures a == RgaSystem.Anchor(doc, afterID) && after == nodes[RgaSystem.Anchor(doc, afterID)]
    {
      var n, k := FindNode(afterID);
      if n == null {
        a := |nodes| - 2;
        assert nodes[a + 1].prev == nodes[a];
        after := tail.prev;
      } else {
        after, a := n, k;
      }
    }

    method Attach(afterID: bytes, n: Elem)
      requires Valid()
      modifies this`nodes, this`doc, this`length, nodes`prev, nodes`next
      ensures Valid()
      ensures doc == RgaSystem.Attach(old(doc), afterID, n)
      ensures forall i :: 0 <= i < |nodes| ==> nodes[i] in old(nodes) || fresh(nodes[i])
    {
      var after, a := AnchorFor(afterID);
      AddAfter(after, a, n.(origin := after.id));
    }

    /** A local insert after the named node, or at the end when no node has that name. */
    method Insert(afterID: bytes, value: bytes)
      requires Valid()
      modifies this`nodes, this`doc, this`length, this`clock, nodes`prev, nodes`next
      ensures Valid()
      ensures State() == RgaSystem.LocalInsert(old(State()), name, afterID, value)
      ensures forall i :: 0 <= i < |nodes| ==> nodes[i] in old(nodes) || fresh(nodes[i])
    {
      clock := clock + 1;
      Attach(afterID, Elem(RgaIds.MintId(clock, name, value), value, clock, name, false, []));
    }

    /** Tombstones the node with this ID, if there is one. */
    method Delete(nodeID: bytes)
      requires Valid()
      modifies this`doc, nodes`deleted
      ensures Valid()
      ensures doc == Erase(old(doc), nodeID)
    {
      var node, k := FindNode(nodeID);
      if node != null {
        node.deleted := true;
      }
      doc := Erase(doc, nodeID);
    }

    /** Renders the live text. */
    method String() returns (text: bytes)
      requires Valid()
      ensures text == Text(doc)
    {
      ghost var s := doc;
      text := [];
      var curr := head.next;
      ghost var k := 1;
      while curr != null && curr != tail
        invariant 1 <= k < |nodes| && curr == nodes[k]
        invariant text == Text(s[..k])
        decreases |nodes| - k
      {
        assert s[..k + 1][..k] == s[..k] && s[k] == curr.View();
        if !curr.deleted {
          text := text + curr.value;
        }
        curr := curr.next;
        k := k + 1;
      }
      assert s[..k] == s;
    }

    /** The IDs of every node, the sentinels included. */
    method IndexIds() returns (ids: set<bytes>)
      requires Valid()
      ensures forall id :: id in ids <==> Has(doc, id) || id == TailId
    {
      ids := {head.id};
      var curr := head.next;
      ghost var k := 1;
      while curr != null && curr != tail
        invariant 1 <= k < |nodes| && curr == nodes[k]
        invariant ids == set i | 0 <= i < k :: doc[i].id
        decreases |nodes| - k
      {
        assert curr.View() == doc[k];
        ids := ids + {curr.id};
        curr := curr.next;
        k := k + 1;
      }
      forall id
        ensures id in ids <==> Has(doc, id)
      {
        if id in ids {
          var i :| 0 <= i < k && doc[i].id == id;
        }
      }
      ids := ids + {tail.id};
    }

    // Merge's first pass at one node of the other side: apply its tombstone here if the node is known,
    // put it on the work list if it is not.
    method CollectNode(curr: Node, local: set<bytes>, ghost other: Rga) returns (p: seq<Pending>)
      requires Valid() && curr !in nodes && curr.prev != null && curr.prev.id != []
      requires other != this && other.Valid() && Apart(other)
      modifies this`doc, nodes`deleted
      ensures Valid() && other.Valid()
      ensures doc == if curr.id in local && curr.deleted then Erase(old(doc), curr.id) else old(doc)
      ensures p == if curr.id in local then [] else [Pending(old(curr.View()), old(curr.prev.id))]
    {
      p := [];
      if curr.id in local {
        if curr.deleted {
          Delete(curr.id);
        }
      } else {
        var prevID := head.id;
        if curr.prev != null && curr.prev.id != [] {
          prevID := curr.prev.id;
        }
        p := [Pending(curr.View(), prevID)];
      }
    }

    method CollectAt(curr: Node, local: set<bytes>, missing: seq<Pending>, ghost s: Doc, ghost other: Rga, ghost k: nat)
      returns (missing': seq<Pending>)
      requires Valid() && other != this && other.Valid() && Proper(other.doc) && Distinct(s)
      requires 1 <= k < |other.doc| && curr == other.nodes[k]
      requires Apart(other)
      requires forall id :: id in local <==> Has(s, id) || id == TailId
      requires doc == BuryUpTo(s, other.doc, k) && PlacedAll(missing) == MissingNodes(s, other.doc, k)
      modifies this`doc, nodes`deleted
      ensures Valid() && other.Valid()
      ensures doc == BuryUpTo(s, other.doc, k + 1) && PlacedAll(missing') == MissingNodes(s, other.doc, k + 1)
    {
      ghost var t := other.doc;
      CollectStep(s, t, k);
      assert curr.View() == t[k] && curr.prev == other.nodes[k - 1] && other.nodes[k - 1].View() == t[k - 1];
      var p := CollectNode(curr, local, other);
      missing' := missing + p;
      if p != [] {
        PlacedAllSnoc(missing, p[0]);
      } else {
        assert missing' == missing;
      }
    }

    /** Merge's first pass: applies the other side's tombstones and lists the nodes missing here. */
    method Collect(other: Rga) returns (missing: seq<Pending>)
      requires Valid() && other.Valid() && Proper(other.doc) && Distinct(doc)
      requires Apart(other)
      modifies this`doc, nodes`deleted
      ensures Valid()
      ensures doc == Bury(old(doc), other.doc)
      ensures PlacedAll(missing) == MissingNodes(old(doc), other.doc, |other.doc|)
    {
      ghost var s, t := doc, other.doc;
      var local := IndexIds();
      missing := [];
      assert other.nodes[0] !in nodes && this != other;
      var curr := other.head.next;
      ghost var k := 1;
      while curr != null && curr != other.tail
        invariant Valid()
        invariant other.Valid() && other.doc == t
        invariant 1 <= k < |other.nodes| && curr == other.nodes[k]
        invariant doc == BuryUpTo(s, t, k)
        invariant PlacedAll(missing) == MissingNodes(s, t, k)
        decreases |other.nodes| - k
      {
        missing := CollectAt(curr, local, missing, s, other, k);
        curr := curr.next;
        k := k + 1;
      }
      BuryInOnePass(s, t);
    }

    // Anchors one pending node if its predecessor is here.
    method PlaceOne(p: Pending) returns (found: bool)
      requires Valid()
      modifies this`nodes, this`doc, this`length, nodes`prev, nodes`next
      ensures Valid()
      ensures found == Has(old(doc), p.prevID)
      ensures doc == Place(old(doc), p.Placed())
      ensures forall i :: 0 <= i < |nodes| ==> nodes[i] in old(nodes) || fresh(nodes[i])
    {
      var after, k := FindNode(p.prevID);
      found := after != null;
      if found {
        AddAfter(after, k, p.Placed());
      }
    }

    // One turn of a sweep.
    method SweepAt(p: Pending, placed: set<bytes>, deferred: seq<Pending>, ghost s: Doc, ghost es: seq<Elem>, ghost q: nat)
      returns (placed': set<bytes>, deferred': seq<Pending>)
      requires Valid() && q < |es| && p.Placed() == es[q] && p.node.id !in placed
      requires doc == Deliver(s, es[..q]) && Has(doc, p.prevID)
      modifies this`nodes, this`doc, this`length, nodes`prev, nodes`next
      ensures Valid() && doc == Deliver(s, es[..q + 1])
      ensures placed' == placed + {es[q].id} && deferred' == deferred
      ensures forall i :: 0 <= i < |nodes| ==> nodes[i] in old(nodes) || fresh(nodes[i])
    {
      placed', deferred' := placed, deferred;
      if p.node.id !in placed {
        var found := PlaceOne(p);
        if !found {
          deferred' := deferred + [p];
        } else {
          placed' := placed + {p.node.id};
        }
      }
      DeliverOneMore(s, es, q);
    }

    /** One sweep over the work list: every node in it finds its anchor, so none is deferred. */
    method Sweep(remaining: seq<Pending>, placed: set<bytes>) returns (deferred: seq<Pending>, placed': set<bytes>)
      requires Valid() && Distinct(PlacedAll(remaining)) && AnchorsReady(doc, PlacedAll(remaining))
      requires forall i :: 0 <= i < |remaining| ==> remaining[i].node.id !in placed
      modifies this`nodes, this`doc, this`length, nodes`prev, nodes`next
      ensures Valid() && deferred == []
      ensures doc == Deliver(old(doc), PlacedAll(remaining))
      ensures forall i :: 0 <= i < |nodes| ==> nodes[i] in old(nodes) || fresh(nodes[i])
    {
      ghost var s, es := doc, PlacedAll(remaining);
      deferred, placed' := [], placed;
      var q := 0;
      while q < |remaining|
        invariant Valid() && q <= |remaining| && deferred == []
        invariant doc == Deliver(s, es[..q])
        invariant forall i :: q <= i < |remaining| ==> es[i].id !in placed'
        invariant forall i :: 0 <= i < |nodes| ==> nodes[i] in old(nodes) || fresh(nodes[i])
      {
        var p := remaining[q];
        assert es[q] == p.Placed();
        ReadyAt(s, es, q);
        LaterNotPlaced(es, q, placed');
        placed', deferred := SweepAt(p, placed', deferred, s, es, q);
        q := q + 1;
      }
      assert es[..q] == es;
    }

    // Merge's second pass: sweep until nothing is deferred or a sweep makes no progress.
    method PlaceMissing(missing: seq<Pending>)
      requires Valid() && Distinct(PlacedAll(missing)) && AnchorsReady(doc, PlacedAll(missing))
      modifies this`nodes, this`doc, this`length, nodes`prev, nodes`next
      ensures Valid() && doc == Deliver(old(doc), PlacedAll(missing))
      ensures forall i :: 0 <= i < |nodes| ==> nodes[i] in old(nodes) || fresh(nodes[i])
    {
      var remaining, placed, done := missing, {}, false;
      while !done
        invariant Valid()
        invariant if done then doc == Deliver(old(doc), PlacedAll(missing))
                  else doc == old(doc) && nodes == old(nodes) && remaining == missing && placed == {}
        invariant forall i :: 0 <= i < |nodes| ==> nodes[i] in old(nodes) || fresh(nodes[i])
        decreases !done
      {
        var before := |placed|;
        remaining, placed := Sweep(remaining, placed);
        done := |remaining| == 0 || |placed| == before;
      }
    }

    /** Folds into this replica what it is missing from the other; merging nothing or itself changes nothing. */
    method Merge(other: Rga?)
      requires Valid()
      requires other != null && other != this ==> other.Valid() && Apart(other) && Distinct(doc) && Proper(other.doc)
      modifies this`nodes, this`doc, this`length, nodes`prev, nodes`next, nodes`deleted
      ensures Valid() && clock == old(clock)
      ensures doc == if other == null || other == this then old(doc) else RgaMerge.Merge(old(doc), old(other.doc))
      ensures forall i :: 0 <= i < |nodes| ==> nodes[i] in old(nodes) || fresh(nodes[i])
    {
      if other != null && other != this {
        MergeOther(other);
      }
    }

    method MergeOther(other: Rga)
      requires Valid() && other.Valid() && Apart(other) && Distinct(doc) && Proper(other.doc)
      modifies this`nodes, this`doc, this`length, nodes`prev, nodes`next, nodes`deleted
      ensures Valid() && clock == old(clock)
      ensures doc == RgaMerge.Merge(old(doc), old(other.doc))
      ensures forall i :: 0 <= i < |nodes| ==> nodes[i] in old(nodes) || fresh(nodes[i])
    {
      ghost var s, t, m := doc, other.doc, RgaMerge.Merge(doc, other.doc);
      MergePlan(s, t);
      ghost var es := MissingNodes(s, t, |t|);
      assert m == Deliver(Bury(s, t), es);
      var missing := Collect(other);
      assert doc == Bury(s, t) && PlacedAll(missing) == es;
      PlaceMissing(missing);
    }
  }

  // Each node's anchor is there by the time the nodes before it have been delivered.
  ghost predicate AnchorsReady(s: Doc, es: seq<Elem>) {
    forall q :: 0 <= q < |es| ==> Has(Deliver(s, es[..q]), es[q].origin)
  }

  lemma ReadyAt(s: Doc, es: seq<Elem>, q: nat)
    requires AnchorsReady(s, es) && q < |es|
    ensures Has(Deliver(s, es[..q]), es[q].origin)
  {
  }

  lemma LaterNotPlaced(es: seq<Elem>, q: nat, placed: set<bytes>)
    requires Distinct(es) && q < |es| && forall i :: q <= i < |es| ==> es[i].id !in placed
    ensures es[q].id !in placed && forall i :: q < i < |es| ==> es[i].id !in placed + {es[q].id}
  {
  }

  lemma DeliverOneMore(s: Doc, es: seq<Elem>, q: nat)
    requires q < |es|
    ensures Deliver(s, es[..q + 1]) == Place(Deliver(s, es[..q]), es[q])
  {
    assert es[..q + 1][..q] == es[..q];
  }

  // The two passes add up to the merge.
  lemma MergePlan(s: Doc, t: Doc)
    requires |s| > 0 && |t| > 0 && s[0].id == t[0].id && Distinct(t)
    ensures RgaMerge.Merge(s, t) == Deliver(Bury(s, t), MissingNodes(s, t, |t|))
    ensures Distinct(MissingNodes(s, t, |t|)) && AnchorsReady(Bury(s, t), MissingNodes(s, t, |t|))
  {
    var es := MissingNodes(s, t, |t|);
    MergeIsDelivery(s, t, |t|);
    MissingDistinct(s, t, |t|);
    forall q | 0 <= q < |es|
      ensures Has(Deliver(Bury(s, t), es[..q]), es[q].origin)
    {
      AnchorInPlace(s, t, |t|, q, es);
    }
  }

  lemma SplicedNodes(was: seq<Node>, k: nat, node: Node, now: seq<Node>)
    requires k <= |was| && now == was[..k] + [node] + was[k..] && node !in was
    requires forall i, j :: 0 <= i < j < |was| ==> was[i] != was[j]
    ensures forall i :: 0 <= i < |now| ==> now[i] == if i < k then was[i] else if i == k then node else was[i - 1]
    ensures forall i, j :: 0 <= i < j < |now| ==> now[i] != now[j]
  {
  }

  lemma FoundAt(s: Doc, id: bytes, k: nat)
    requires k <= |s| && (k < |s| ==> s[k].id == id) && forall i :: 0 <= i < k ==> s[i].id != id
    ensures Find(s, id) == k
  {
  }

  /** In every reachable state, every replica's list has the IDs Merge relies on. */
  lemma MergeReady(y: RgaSystem.System, name: bytes)
    requires RgaSystem.Inv(y) && name in y
    ensures Proper(y[name].doc)
  {
    var s := y[name].doc;
    forall i | 0 <= i < |s|
      ensures s[i].id != [] && s[i].id != TailId
    {
      if i > 0 {
        assert RgaSystem.Minted(y, s[i]);
        assert s[i].id[0] == RgaIds.Decimal(s[i].ts)[0];
        assert TailId[0] == 116;
      } else {
        assert HeadId[0] != TailId[0];
      }
    }
  }
}
