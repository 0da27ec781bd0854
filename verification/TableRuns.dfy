/** Any sequence of what a node does to its table and its peer map. */
module TableRuns {
  import opened Bytes
  import opened NodeIds
  import opened Closest
  import opened Routing
  import Lookup
  import Merkle
  import Registration

  datatype Op =
    | Store(pi: PeerInfo, now: int)
    | Register(src: NodeId, payload: bytes, now: int)
    | Drop(id: NodeId)
    | Prune(cutoff: int)
    | Search(running: bool, target: NodeId, net: Lookup.Network, cancelled: nat -> bool, now: int)

  // Nobody is forgotten, and nobody known then is in the table now who was not in it then.
  ghost predicate NoReturn(a: Holdings, b: Holdings) {
    a.known <= b.known && forall id :: id in b.table && id in a.known ==> id in a.table
  }

  // What can bring an ID in.
  method Admit(node: Node, h: Merkle.Hash, op: Op)
    requires node.Valid() && (op.Store? || op.Register?)
    modifies node, node.peers.Values
    ensures node.Valid() && NoReturn(old(node.Held()), node.Held())
    ensures forall id :: id in node.peers ==> node.peers[id] in old(node.peers).Values || fresh(node.peers[id])
  {
    match op
    case Store(pi, now) => node.StorePeer(pi, now);
    case Register(src, payload, now) => Registration.HandleRegister(node, h, src, payload, now);
  }

  // One operation.
  method Apply(node: Node, h: Merkle.Hash, op: Op)
    requires node.Valid()
    modifies node, node.peers.Values
    ensures node.Valid() && NoReturn(old(node.Held()), node.Held())
    ensures forall id :: id in node.peers ==> node.peers[id] in old(node.peers).Values || fresh(node.peers[id])
  {
    match op
    case Store(_, _) => Admit(node, h, op);
    case Register(_, _, _) => Admit(node, h, op);
    case Drop(id) => ghost var k := node.Remove(id);
    case Prune(cutoff) => var removed := node.PruneStale(cutoff);
    case Search(running, target, net, cancelled, now) =>
      var r, log, ts := Lookup.Lookup(node, running, target, net, cancelled, now);
  }

  /** In every run, whatever is stored, registered, removed, pruned or looked up: an ID that the map knows and
      the table does not hold never gets into the table again. */
  method Run(node: Node, h: Merkle.Hash, ops: seq<Op>) returns (ghost trace: seq<Holdings>)
    requires node.Valid()
    modifies node, node.peers.Values
    ensures node.Valid() && |trace| == |ops| + 1 && trace[0] == old(node.Held()) && trace[|ops|] == node.Held()
    ensures forall i, j :: 0 <= i <= j < |trace| ==> NoReturn(trace[i], trace[j])
  {
    trace := [node.Held()];
    var k := 0;
    while k < |ops|
      invariant k <= |ops| && node.Valid() && |trace| == k + 1 && trace[0] == old(node.Held()) && trace[k] == node.Held()
      invariant forall i, j :: 0 <= i <= j < |trace| ==> NoReturn(trace[i], trace[j])
      invariant forall id :: id in node.peers ==> node.peers[id] in old(node.peers).Values || fresh(node.peers[id])
    {
      Apply(node, h, ops[k]);
      Lengthened(trace, node.Held());
      trace := trace + [node.Held()];
      k := k + 1;
    }
  }

  lemma Lengthened(trace: seq<Holdings>, m: Holdings)
    requires |trace| > 0 && NoReturn(trace[|trace| - 1], m)
    requires forall i, j :: 0 <= i <= j < |trace| ==> NoReturn(trace[i], trace[j])
    ensures forall i, j :: 0 <= i <= j < |trace + [m]| ==> NoReturn((trace + [m])[i], (trace + [m])[j])
  {
    forall i | 0 <= i < |trace|
      ensures NoReturn(trace[i], m)
    {
      assert NoReturn(trace[i], trace[|trace| - 1]);
    }
  }
}
