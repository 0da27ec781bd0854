/** The iterative lookup. The network is a parameter: what the k-th call answers. */
module Lookup {
  import opened NodeIds
  import opened Closest
  import opened Routing

  const Alpha := 3
  const MaxHops := 15

  /** An answer: an error, something other than a node list, or the peers it names. */
  datatype Response = Failed | Unexpected | Found(peers: seq<PeerInfo>)
  type Network = nat -> Response

  datatype Outcome = NotRunning | NoPeers | Cancelled | Done(peers: seq<PeerInfo>)

  function Named1(r: Response): seq<PeerInfo> {
    if r.Found? then r.peers else []
  }

  /** Everything the calls from a up to b named, in order. */
  function Named(net: Network, a: nat, b: nat): seq<PeerInfo>
    requires a <= b
  {
    if a == b then [] else Named(net, a, b - 1) + Named1(net(b - 1))
  }

  /** Named is what the answers of those calls name, and nothing else. */
  lemma {:induction false} NamedIff(net: Network, a: nat, b: nat, p: PeerInfo)
    requires a <= b
    ensures p in Named(net, a, b) <==> exists k: nat :: a <= k < b && net(k).Found? && p in net(k).peers
  {
    if a < b {
      NamedIff(net, a, b - 1, p);
    }
  }

  lemma IdsConcat(ps: seq<PeerInfo>, qs: seq<PeerInfo>)
    ensures Ids(ps + qs) == Ids(ps) + Ids(qs)
  {
    forall x: NodeId
      ensures x in Ids(ps + qs) <==> x in Ids(ps) + Ids(qs)
    {
      if x in Ids(ps) + Ids(qs) {
        var p :| (p in ps || p in qs) && p.id == x;
        assert p in ps + qs;
      }
    }
  }

  lemma {:induction false} NamedSplits(net: Network, a: nat, b: nat, c: nat)
    requires a <= b <= c
    ensures Named(net, a, c) == Named(net, a, b) + Named(net, b, c)
  {
    if b < c {
      NamedSplits(net, a, b, c - 1);
    }
  }

  // ---------- one round ----------

  // A peer the round could dial.
  predicate Dialable(p: PeerInfo, queried: set<NodeId>) {
    p.id !in queried && p.addrs != []
  }

  ghost predicate DistinctLog(log: seq<NodeId>) {
    forall i, j :: 0 <= i < j < |log| ==> log[i] != log[j]
  }

  function LogOf(ps: seq<PeerInfo>): (r: seq<NodeId>)
    ensures |r| == |ps| && forall i :: 0 <= i < |r| ==> r[i] == ps[i].id
  {
    seq(|ps|, i requires 0 <= i < |ps| => ps[i].id)
  }

  function AllDialable(ps: seq<PeerInfo>, queried: set<NodeId>): (r: seq<PeerInfo>)
    ensures forall p :: p in r ==> p in ps && Dialable(p, queried)
  {
    if ps == [] then []
    else
      var n := |ps| - 1;
      AllDialable(ps[..n], queried) + (if Dialable(ps[n], queried) then [ps[n]] else [])
  }

  /** Exactly the dialable ones, in the order they are in. */
  lemma {:induction false} AllDialableIff(ps: seq<PeerInfo>, queried: set<NodeId>, p: PeerInfo)
    ensures p in AllDialable(ps, queried) <==> p in ps && p.id !in queried && p.addrs != []
  {
    if ps != [] {
      var n := |ps| - 1;
      AllDialableIff(ps[..n], queried, p);
      assert ps == ps[..n] + [ps[n]];
    }
  }

  lemma {:induction false} AllDialableSorted(target: NodeId, ps: seq<PeerInfo>, queried: set<NodeId>)
    requires StrictlySorted(target, ps)
    ensures StrictlySorted(target, AllDialable(ps, queried))
  {
    if ps != [] {
      var n := |ps| - 1;
      AllDialableSorted(target, ps[..n], queried);
      var front := AllDialable(ps[..n], queried);
      forall i | 0 <= i < |front| ensures Closer(target, front[i].id, ps[n].id) {
        assert front[i] in ps[..n];
      }
    }
  }

  /** Whom a round asks: the first peers of the shortlist with an address that have not been asked, at most Alpha. */
  function FirstUnasked(ps: seq<PeerInfo>, queried: set<NodeId>): (batch: seq<PeerInfo>)
    ensures |batch| <= 3
  {
    var all := AllDialable(ps, queried);
    if |all| <= Alpha then all else all[..Alpha]
  }

  /** What is marked besides: peers of the shortlist that are asked now or cannot be, for want of an address. */
  ghost predicate Marked(ps: seq<PeerInfo>, queried: set<NodeId>, batch: seq<PeerInfo>, queried': set<NodeId>) {
    && queried <= queried' && (forall p :: p in batch ==> p.id in queried')
    && forall id :: id in queried' && id !in queried ==> exists p :: p in ps && p.id == id && (p in batch || p.addrs == [])
  }

  lemma {:induction false} DialablePrefix(ps: seq<PeerInfo>, queried: set<NodeId>, i: nat)
    requires i <= |ps|
    ensures AllDialable(ps[..i], queried) <= AllDialable(ps, queried)
  {
    if i == |ps| {
      assert ps[..i] == ps;
    } else {
      var n := |ps| - 1;
      DialablePrefix(ps[..n], queried, i);
      assert ps[..n][..i] == ps[..i];
    }
  }

  /** Picks the closest peers not asked yet, at most Alpha, and marks what it passes as asked. */
  method SelectBatch(ps: seq<PeerInfo>, queried: set<NodeId>) returns (batch: seq<PeerInfo>, queried': set<NodeId>)
    requires DistinctIds(ps)
    ensures batch == FirstUnasked(ps, queried) && Marked(ps, queried, batch, queried')
    ensures DistinctIds(batch) && forall i :: 0 <= i < |batch| ==> batch[i].id !in queried
  {
    batch, queried' := [], queried;
    var i := 0;
    while i < |ps| && |batch| < Alpha
      invariant i <= |ps| && |batch| <= Alpha
      invariant batch == AllDialable(ps[..i], queried) && DistinctIds(batch)
      invariant Marked(ps, queried, batch, queried')
      invariant forall k :: i <= k < |ps| && ps[k].id in queried' ==> ps[k].id in queried
    {
      DialableNext(ps, queried, i);
      OthersUnasked(ps, i, queried, queried');
      batch, queried' := Consider(ps, i, batch, queried, queried');
      i := i + 1;
    }
    BatchSettled(ps, queried, i, batch);
  }

  // One turn of that loop.
  method Consider(ps: seq<PeerInfo>, i: nat, batch: seq<PeerInfo>, ghost queried: set<NodeId>, asked: set<NodeId>)
    returns (batch': seq<PeerInfo>, asked': set<NodeId>)
    requires DistinctIds(ps) && i < |ps| && batch == AllDialable(ps[..i], queried) && DistinctIds(batch)
    requires Marked(ps, queried, batch, asked) && (ps[i].id in asked ==> ps[i].id in queried)
    ensures batch' == batch + (if Dialable(ps[i], queried) then [ps[i]] else []) && DistinctIds(batch')
    ensures asked' == asked + {ps[i].id} && Marked(ps, queried, batch', asked')
  {
    batch', asked' := batch, asked;
    var p := ps[i];
    if p.id !in asked {
      asked' := asked + {p.id};
      if p.addrs != [] {
        NewToBatch(ps, i, batch, queried);
        DistinctMore(batch, p);
        batch' := batch + [p];
      }
    }
    MarkedMore(ps, i, queried, batch, asked, batch');
  }

  lemma MarkedMore(ps: seq<PeerInfo>, i: nat, queried: set<NodeId>, batch: seq<PeerInfo>, asked: set<NodeId>, batch': seq<PeerInfo>)
    requires i < |ps| && Marked(ps, queried, batch, asked) && (ps[i].id in asked ==> ps[i].id in queried)
    requires batch' == batch + if Dialable(ps[i], queried) then [ps[i]] else []
    ensures Marked(ps, queried, batch', asked + {ps[i].id})
  {
    forall id | id in asked + {ps[i].id} && id !in queried
      ensures exists p :: p in ps && p.id == id && (p in batch' || p.addrs == [])
    {
      if id == ps[i].id {
        assert ps[i] in ps;
      } else {
        var p :| p in ps && p.id == id && (p in batch || p.addrs == []);
      }
    }
  }

  // Marking one peer as asked marks no later one.
  lemma OthersUnasked(ps: seq<PeerInfo>, i: nat, queried: set<NodeId>, queried': set<NodeId>)
    requires DistinctIds(ps) && i < |ps| && forall k :: i <= k < |ps| && ps[k].id in queried' ==> ps[k].id in queried
    ensures forall k :: i < k < |ps| && ps[k].id in queried' + {ps[i].id} ==> ps[k].id in queried
    ensures ps[i].id in queried' ==> ps[i].id in queried
  {
  }

  lemma DialableNext(ps: seq<PeerInfo>, queried: set<NodeId>, i: nat)
    requires i < |ps|
    ensures AllDialable(ps[..i + 1], queried) == AllDialable(ps[..i], queried) + (if Dialable(ps[i], queried) then [ps[i]] else [])
  {
    assert ps[..i + 1][..i] == ps[..i];
  }

  lemma BatchSettled(ps: seq<PeerInfo>, queried: set<NodeId>, i: nat, batch: seq<PeerInfo>)
    requires i <= |ps| && batch == AllDialable(ps[..i], queried) && (i == |ps| || |batch| == Alpha) && |batch| <= Alpha
    ensures batch == FirstUnasked(ps, queried) && forall k :: 0 <= k < |batch| ==> batch[k].id !in queried
  {
    DialablePrefix(ps, queried, i);
    assert i == |ps| ==> ps[..i] == ps;
    assert forall k :: 0 <= k < |batch| ==> batch[k] in batch;
  }

  lemma DistinctMore(batch: seq<PeerInfo>, p: PeerInfo)
    requires DistinctIds(batch) && forall k :: 0 <= k < |batch| ==> batch[k].id != p.id
    ensures DistinctIds(batch + [p])
  {
  }

  lemma NewToBatch(ps: seq<PeerInfo>, i: nat, batch: seq<PeerInfo>, queried: set<NodeId>)
    requires DistinctIds(ps) && i < |ps| && batch == AllDialable(ps[..i], queried)
    ensures forall k :: 0 <= k < |batch| ==> batch[k].id != ps[i].id
  {
    forall k | 0 <= k < |batch|
      ensures batch[k].id != ps[i].id
    {
      assert batch[k] in batch;
      var j :| 0 <= j < i && ps[..i][j] == batch[k];
      assert ps[j].id != ps[i].id;
    }
  }

  type Records = map<NodeId, PeerInfo>

  // One more on record, or one rewritten; its last-seen time apart.
  ghost predicate Noted(before: Records, fp: PeerInfo, after: Records) {
    && after.Keys == before.Keys + {fp.id} && after[fp.id] == fp.(lastSeen := after[fp.id].lastSeen)
    && forall id :: id in before && id != fp.id ==> after[id] == before[id]
  }

  // Stores one peer; was it known before?
  method Remember(node: Node, fp: PeerInfo, now: int) returns (known: bool)
    requires node.Valid()
    modifies node, node.peers.Values
    ensures node.Valid() && known == (fp.id in old(node.peers))
    ensures node.peers.Keys == old(node.peers).Keys + {fp.id}
    ensures forall id :: id in node.peers ==> node.peers[id] in old(node.peers).Values || fresh(node.peers[id])
    ensures Noted(old(node.Records()), fp, node.Records())
    ensures Grew(old(node.Held()), node.Held())
  {
    known := fp.id in node.peers;
    assert node.TableIds() <= node.peers.Keys;
    node.StorePeer(fp, now);
  }

  // The first i of an answer taken in: the shortlist grown by them, and the IDs known.
  ghost predicate TakenIn(found: seq<PeerInfo>, i: nat, shortlist: seq<PeerInfo>, longer: seq<PeerInfo>, known: set<NodeId>, keys: set<NodeId>)
    requires i <= |found|
  {
    longer == shortlist + found[..i] && keys == known + Ids(found[..i])
  }

  lemma {:induction false} OneTakenIn(found: seq<PeerInfo>, i: nat, shortlist: seq<PeerInfo>, longer: seq<PeerInfo>, known: set<NodeId>, keys: set<NodeId>, keys': set<NodeId>)
    requires i < |found| && TakenIn(found, i, shortlist, longer, known, keys) && keys' == keys + {found[i].id}
    ensures TakenIn(found, i + 1, shortlist, longer + [found[i]], known, keys')
  {
    assert found[..i + 1] == found[..i] + [found[i]];
    IdsSnoc(found[..i], found[i]);
  }

  // The map and the table have grown since, to what they are now.
  ghost predicate Since(node: Node, was: Holdings, held: Holdings, progressed: bool)
    reads node, node.peers.Values
  {
    node.Valid() && node.Held() == held && Grew(was, held) && (progressed <==> held.known != was.known)
  }

  // All named are on record as one of the entries says, but for the last-seen time; the others as before.
  ghost predicate AllNoted(before: Records, found: seq<PeerInfo>, after: Records) {
    forall id :: id in after ==>
      if id in Ids(found) then NotedAs(found, after[id]) else id in before && after[id] == before[id]
  }

  ghost predicate NotedAs(found: seq<PeerInfo>, info: PeerInfo) {
    exists p :: p in found && info == p.(lastSeen := info.lastSeen)
  }

  lemma {:induction false} AllNotedMore(before: Records, found: seq<PeerInfo>, mid: Records, fp: PeerInfo, after: Records)
    requires AllNoted(before, found, mid) && Noted(mid, fp, after)
    ensures AllNoted(before, found + [fp], after)
  {
    IdsSnoc(found, fp);
    forall id | id in after
      ensures if id in Ids(found + [fp]) then NotedAs(found + [fp], after[id]) else id in before && after[id] == before[id]
    {
      if id == fp.id {
        assert fp in found + [fp];
      } else if id in Ids(found) {
        var p :| p in found && mid[id] == p.(lastSeen := mid[id].lastSeen);
        assert p in found + [fp];
      }
    }
  }

  ghost predicate FirstNoted(before: Records, found: seq<PeerInfo>, i: nat, after: Records)
    requires i <= |found|
  {
    AllNoted(before, found[..i], after)
  }

  lemma {:induction false} OneNoted(before: Records, found: seq<PeerInfo>, i: nat, mid: Records, after: Records)
    requires i < |found| && FirstNoted(before, found, i, mid) && Noted(mid, found[i], after)
    ensures FirstNoted(before, found, i + 1, after)
  {
    AllNotedMore(before, found[..i], mid, found[i], after);
    assert found[..i + 1] == found[..i] + [found[i]];
  }

  // Stores and collects the peers one answer names.
  method Absorb(node: Node, found: seq<PeerInfo>, shortlist: seq<PeerInfo>, now: int) returns (longer: seq<PeerInfo>, progressed: bool)
    requires node.Valid()
    modifies node, node.peers.Values
    ensures node.Valid() && longer == shortlist + found
    ensures node.peers.Keys == old(node.peers).Keys + Ids(found)
    ensures progressed <==> node.peers.Keys != old(node.peers).Keys
    ensures forall id :: id in node.peers ==> node.peers[id] in old(node.peers).Values || fresh(node.peers[id])
    ensures Grew(old(node.Held()), node.Held())
    ensures AllNoted(old(node.Records()), found, node.Records())
  {
    ghost var was, held, before, records := node.Held(), node.Held(), node.Records(), node.Records();
    longer, progressed := shortlist, false;
    var i := 0;
    while i < |found|
      invariant i <= |found| && Since(node, was, held, progressed) && node.Records() == records
      invariant Told(found, i, shortlist, longer, was.known, held.known, before, records)
      invariant forall id :: id in node.peers ==> node.peers[id] in old(node.peers).Values || fresh(node.peers[id])
    {
      longer, progressed, held, records := AbsorbNext(node, found, i, shortlist, longer, progressed, now, was, held, before, records);
      i := i + 1;
    }
    assert found[..|found|] == found;
  }

  // The first i of an answer taken in, and on record.
  ghost predicate Told(found: seq<PeerInfo>, i: nat, shortlist: seq<PeerInfo>, longer: seq<PeerInfo>, known: set<NodeId>, keys: set<NodeId>,
                       before: Records, after: Records)
    requires i <= |found|
  {
    TakenIn(found, i, shortlist, longer, known, keys) && FirstNoted(before, found, i, after)
  }

  method AbsorbNext(node: Node, found: seq<PeerInfo>, i: nat, ghost shortlist: seq<PeerInfo>, longer: seq<PeerInfo>, progressed: bool, now: int,
                    ghost was: Holdings, ghost held: Holdings, ghost before: Records, ghost records: Records)
    returns (longer': seq<PeerInfo>, progressed': bool, ghost held': Holdings, ghost records': Records)
    requires i < |found| && Since(node, was, held, progressed) && node.Records() == records
    requires Told(found, i, shortlist, longer, was.known, held.known, before, records)
    modifies node, node.peers.Values
    ensures Since(node, was, held', progressed') && node.Records() == records'
    ensures Told(found, i + 1, shortlist, longer', was.known, held'.known, before, records')
    ensures forall id :: id in node.peers ==> node.peers[id] in old(node.peers).Values || fresh(node.peers[id])
  {
    progressed', held', records' := AbsorbOne(node, found[i], progressed, now, was, held, records);
    OneNoted(before, found, i, records, records');
    OneTakenIn(found, i, shortlist, longer, was.known, held.known, held'.known);
    longer' := longer + [found[i]];
  }

  // One turn of that loop.
  method AbsorbOne(node: Node, fp: PeerInfo, progressed: bool, now: int, ghost was: Holdings, ghost held: Holdings, ghost records: Records)
    returns (progressed': bool, ghost held': Holdings, ghost records': Records)
    requires Since(node, was, held, progressed) && node.Records() == records
    modifies node, node.peers.Values
    ensures Since(node, was, held', progressed') && held'.known == held.known + {fp.id}
    ensures Noted(records, fp, records') && node.Records() == records'
    ensures forall id :: id in node.peers ==> node.peers[id] in old(node.peers).Values || fresh(node.peers[id])
  {
    var known := Remember(node, fp, now);
    progressed' := progressed || !known;
    held', records' := node.Held(), node.Records();
    GrewOn(was, held, held');
  }

  // One answer: whatever it names lengthens the shortlist.
  method TakeAnswer(node: Node, resp: Response, shortlist: seq<PeerInfo>, progressed: bool, now: int, ghost was: Holdings, ghost held: Holdings)
    returns (longer: seq<PeerInfo>, progressed': bool, ghost held': Holdings)
    requires Since(node, was, held, progressed)
    modifies node, node.peers.Values
    ensures Since(node, was, held', progressed') && held'.known == held.known + Ids(Named1(resp))
    ensures longer == shortlist + Named1(resp)
    ensures forall id :: id in node.peers ==> node.peers[id] in old(node.peers).Values || fresh(node.peers[id])
  {
    longer, progressed', held' := shortlist, progressed, held;
    if resp.Found? {
      var more;
      longer, more := Absorb(node, resp.peers, shortlist, now);
      held' := node.Held();
      GrewOn(was, held, held');
      progressed' := progressed || more;
    }
  }

  method AskNext(node: Node, net: Network, calls: nat, i: nat, ghost shortlist: seq<PeerInfo>, longer: seq<PeerInfo>, progressed: bool, now: int,
                 ghost was: Holdings, ghost held: Holdings)
    returns (longer': seq<PeerInfo>, progressed': bool, ghost held': Holdings)
    requires Since(node, was, held, progressed) && Heard(net, calls, i, shortlist, longer, was.known, held.known)
    modifies node, node.peers.Values
    ensures Since(node, was, held', progressed') && Heard(net, calls, i + 1, shortlist, longer', was.known, held'.known)
    ensures forall id :: id in node.peers ==> node.peers[id] in old(node.peers).Values || fresh(node.peers[id])
  {
    longer', progressed', held' := TakeAnswer(node, net(calls + i), longer, progressed, now, was, held);
    HeardMore(net, calls, i, shortlist, longer, was.known, held.known, longer', held'.known);
  }

  /** Asks every peer of the batch; each answer lengthens the shortlist. */
  method QueryBatch(node: Node, batch: seq<PeerInfo>, net: Network, calls: nat, shortlist: seq<PeerInfo>, now: int)
    returns (longer: seq<PeerInfo>, progressed: bool)
    requires node.Valid()
    modifies node, node.peers.Values
    ensures node.Valid() && longer == shortlist + Named(net, calls, calls + |batch|)
    ensures node.peers.Keys == old(node.peers).Keys + Ids(Named(net, calls, calls + |batch|))
    ensures progressed <==> node.peers.Keys != old(node.peers).Keys
    ensures forall id :: id in node.peers ==> node.peers[id] in old(node.peers).Values || fresh(node.peers[id])
    ensures Grew(old(node.Held()), node.Held())
  {
    ghost var was, held := node.Held(), node.Held();
    longer, progressed := shortlist, false;
    var i := 0;
    while i < |batch|
      invariant i <= |batch| && Since(node, was, held, progressed)
      invariant Heard(net, calls, i, shortlist, longer, was.known, held.known)
      invariant forall id :: id in node.peers ==> node.peers[id] in old(node.peers).Values || fresh(node.peers[id])
    {
      longer, progressed, held := AskNext(node, net, calls, i, shortlist, longer, progressed, now, was, held);
      i := i + 1;
    }
  }

  // What the calls so far named: the shortlist grown by it, and the IDs known.
  ghost predicate Heard(net: Network, calls: nat, i: nat, shortlist: seq<PeerInfo>, longer: seq<PeerInfo>, known: set<NodeId>, keys: set<NodeId>) {
    longer == shortlist + Named(net, calls, calls + i) && keys == known + Ids(Named(net, calls, calls + i))
  }

  lemma {:induction false} HeardMore(net: Network, calls: nat, i: nat, shortlist: seq<PeerInfo>, longer: seq<PeerInfo>, known: set<NodeId>, keys: set<NodeId>,
                                     longer': seq<PeerInfo>, keys': set<NodeId>)
    requires Heard(net, calls, i, shortlist, longer, known, keys)
    requires longer' == longer + Named1(net(calls + i)) && keys' == keys + Ids(Named1(net(calls + i)))
    ensures Heard(net, calls, i + 1, shortlist, longer', known, keys')
  {
    IdsConcat(Named(net, calls, calls + i), Named1(net(calls + i)));
    assert calls + (i + 1) - 1 == calls + i;
    Joined(shortlist, Named(net, calls, calls + i), Named1(net(calls + i)));
  }

  lemma Joined(a: seq<PeerInfo>, b: seq<PeerInfo>, c: seq<PeerInfo>)
    ensures a + b + c == a + (b + c)
  {
  }

  // Re-sorts and prunes the lengthened shortlist.
  method Prune(target: NodeId, ghost seen: set<NodeId>, ghost shortlist: seq<PeerInfo>, ghost named: seq<PeerInfo>, longer: seq<PeerInfo>)
    returns (pruned: seq<PeerInfo>)
    requires IsClosest(target, KBucketSize, seen, shortlist) && longer == shortlist + named
    ensures IsClosest(target, KBucketSize, seen + Ids(named), pruned)
    ensures forall p :: p in pruned ==> p in shortlist || p in named
  {
    IdsConcat(shortlist, named);
    pruned := DedupeAndPrune(longer, target, KBucketSize);
    PruneEarly(target, KBucketSize, seen, shortlist, Ids(named), pruned);
    forall p | p in pruned ensures p in longer {
      assert Keeps(longer, p);
    }
  }

  // ---------- a run of rounds ----------

  /** Where a lookup stands when a round begins: its shortlist, who has been asked or passed over, how many calls have
      been made, and whom the map knows. */
  datatype Turn = Turn(shortlist: seq<PeerInfo>, asked: set<NodeId>, calls: nat, known: set<NodeId>)

  function Batch(t: Turn): seq<PeerInfo> { FirstUnasked(t.shortlist, t.asked) }

  /** One round: exactly the first unasked peers of the shortlist are called, the map learns what they name, and the
      next shortlist is made of this one and what they name. */
  ghost predicate Turned(net: Network, a: Turn, b: Turn) {
    && Batch(a) != [] && b.calls == a.calls + |Batch(a)|
    && b.known == a.known + Ids(Named(net, a.calls, b.calls))
    && Marked(a.shortlist, a.asked, Batch(a), b.asked)
    && forall p :: p in b.shortlist ==> p in a.shortlist || p in Named(net, a.calls, b.calls)
  }

  // The shortlist holds the closest of what the table held and all that has been named.
  ghost predicate Closest20(target: NodeId, net: Network, start: set<NodeId>, t: Turn) {
    IsClosest(target, KBucketSize, start + Ids(Named(net, 0, t.calls)), t.shortlist)
  }

  // Asks the batch and prunes what comes back.
  method Ask(node: Node, target: NodeId, net: Network, ghost seen: set<NodeId>, shortlist: seq<PeerInfo>, batch: seq<PeerInfo>,
             calls: nat, now: int)
    returns (pruned: seq<PeerInfo>, more: bool)
    requires node.Valid() && IsClosest(target, KBucketSize, seen, shortlist)
    modifies node, node.peers.Values
    ensures node.Valid() && IsClosest(target, KBucketSize, seen + Ids(Named(net, calls, calls + |batch|)), pruned)
    ensures forall p :: p in pruned ==> p in shortlist || p in Named(net, calls, calls + |batch|)
    ensures node.peers.Keys == old(node.peers).Keys + Ids(Named(net, calls, calls + |batch|))
    ensures more <==> node.peers.Keys != old(node.peers).Keys
    ensures forall id :: id in node.peers ==> node.peers[id] in old(node.peers).Values || fresh(node.peers[id])
    ensures Grew(old(node.Held()), node.Held())
  {
    var longer;
    longer, more := QueryBatch(node, batch, net, calls, shortlist, now);
    pruned := Prune(target, seen, shortlist, Named(net, calls, calls + |batch|), longer);
  }

  /** One round: ask the closest unasked peers, fold their answers in, prune. If the shortlist was the
      closest of everything seen, it is the closest of everything seen so far. Without anyone to ask nothing happens. */
  method Round(node: Node, target: NodeId, net: Network, ghost start: set<NodeId>, ghost a: Turn, shortlist: seq<PeerInfo>, queried: set<NodeId>,
               calls: nat, now: int)
    returns (pruned: seq<PeerInfo>, queried': set<NodeId>, calls': nat, more: bool)
    requires node.Valid() && a == Turn(shortlist, queried, calls, node.peers.Keys) && Closest20(target, net, start, a)
    modifies node, node.peers.Values
    ensures node.Valid() && calls' == calls + |Batch(a)|
    ensures Batch(a) != [] ==> var b := Turn(pruned, queried', calls', node.peers.Keys);
            Turned(net, a, b) && Closest20(target, net, start, b) && (more <==> b.known != a.known)
    ensures Batch(a) == [] ==> pruned == shortlist && !more && node.peers.Keys == old(node.peers).Keys
    ensures forall id :: id in node.peers ==> node.peers[id] in old(node.peers).Values || fresh(node.peers[id])
    ensures Grew(old(node.Held()), node.Held())
  {
    SortedDistinct(target, shortlist);
    var batch;
    batch, queried' := SelectBatch(shortlist, queried);
    calls' := calls + |batch|;
    if |batch| == 0 {
      return shortlist, queried', calls, false;
    }
    pruned, more := Ask(node, target, net, start + Ids(Named(net, 0, calls)), shortlist, batch, calls, now);
    RoundTurned(target, net, start, a, batch, Turn(pruned, queried', calls', node.peers.Keys));
  }

  lemma {:induction false} RoundTurned(target: NodeId, net: Network, start: set<NodeId>, a: Turn, batch: seq<PeerInfo>, b: Turn)
    requires batch == Batch(a) != [] && b.calls == a.calls + |batch| && Marked(a.shortlist, a.asked, batch, b.asked)
    requires b.known == a.known + Ids(Named(net, a.calls, a.calls + |batch|))
    requires forall p :: p in b.shortlist ==> p in a.shortlist || p in Named(net, a.calls, a.calls + |batch|)
    requires IsClosest(target, KBucketSize, start + Ids(Named(net, 0, a.calls)) + Ids(Named(net, a.calls, a.calls + |batch|)), b.shortlist)
    ensures Turned(net, a, b) && Closest20(target, net, start, b)
  {
    SeenMore(net, start, a.calls, b.calls);
  }

  lemma {:induction false} SeenMore(net: Network, start: set<NodeId>, a: nat, b: nat)
    requires a <= b
    ensures start + Ids(Named(net, 0, a)) + Ids(Named(net, a, b)) == start + Ids(Named(net, 0, b))
  {
    NamedSplits(net, 0, a, b);
    IdsConcat(Named(net, 0, a), Named(net, a, b));
  }

  lemma {:induction false} SortedDistinct(target: NodeId, ps: seq<PeerInfo>)
    requires StrictlySorted(target, ps)
    ensures DistinctIds(ps)
  {
    forall i, j | 0 <= i < j < |ps|
      ensures ps[i].id != ps[j].id
    {
      CloserAsymmetric(target, ps[i].id, ps[j].id);
    }
  }

  // ---------- whole lookups ----------

  // Each turn's shortlist is the closest so far, and each turn follows from the one before it.
  ghost predicate TurnAt(target: NodeId, net: Network, start: set<NodeId>, ts: seq<Turn>, k: nat)
    requires k < |ts|
  {
    Closest20(target, net, start, ts[k]) && (k > 0 ==> Turned(net, ts[k - 1], ts[k]))
  }

  /** The rounds of a lookup, one turn from each to the next. */
  ghost predicate Rounds(target: NodeId, net: Network, start: set<NodeId>, ts: seq<Turn>) {
    && |ts| > 0 && ts[0].asked == {} && ts[0].calls == 0
    && forall k :: 0 <= k < |ts| ==> TurnAt(target, net, start, ts, k)
  }

  // The context was alive then, and unless it was the first, the round before had named someone new.
  ghost predicate AliveAt(ts: seq<Turn>, k: nat, cancelled: nat -> bool)
    requires k < |ts|
  {
    !cancelled(k) && (k > 0 ==> ts[k].known != ts[k - 1].known)
  }

  // No round before the last stopped short.
  ghost predicate WentOn(ts: seq<Turn>, n: nat, cancelled: nat -> bool)
    requires n <= |ts|
  {
    forall k :: 0 <= k < n ==> AliveAt(ts, k, cancelled)
  }

  /** Why a lookup ends: all rounds are spent, or nobody on the shortlist is left to ask, or the last round named only
      IDs the map knew. It is cancelled only where the context says so. */
  ghost predicate Ended(r: Outcome, ts: seq<Turn>, cancelled: nat -> bool)
    requires |ts| > 0
  {
    var n, last := |ts| - 1, ts[|ts| - 1];
    match r
    case Done(peers) => peers == last.shortlist && (n == MaxHops || Batch(last) == [] || (n > 0 && last.known == ts[n - 1].known))
    case Cancelled => n < MaxHops && cancelled(n) && (n > 0 ==> last.known != ts[n - 1].known)
    case _ => false
  }

  /** Whom the first n rounds called, in order. */
  function Called(ts: seq<Turn>, n: nat): seq<NodeId>
    requires n <= |ts|
  {
    if n == 0 then [] else Called(ts, n - 1) + LogOf(Batch(ts[n - 1]))
  }

  lemma {:induction false} RoundsMore(target: NodeId, net: Network, start: set<NodeId>, ts: seq<Turn>, b: Turn, us: seq<Turn>)
    requires Rounds(target, net, start, ts) && Turned(net, ts[|ts| - 1], b) && Closest20(target, net, start, b) && us == ts + [b]
    ensures Rounds(target, net, start, us)
  {
    forall k | 0 <= k < |us| ensures TurnAt(target, net, start, us, k) {
      if k < |ts| {
        assert TurnAt(target, net, start, ts, k);
      }
    }
  }

  // ---------- what the rounds add up to ----------

  /** Nobody is marked but those called and those whom some shortlist had without an address. */
  lemma {:induction false} AskedIff(target: NodeId, net: Network, start: set<NodeId>, ts: seq<Turn>, n: nat, id: NodeId)
    requires Rounds(target, net, start, ts) && n < |ts|
    ensures id in Called(ts, n) ==> id in ts[n].asked
    ensures id in ts[n].asked ==> id in Called(ts, n) || exists k, p :: 0 <= k < n && p in ts[k].shortlist && p.id == id && p.addrs == []
  {
    if n > 0 {
      AskedIff(target, net, start, ts, n - 1, id);
      var a, b := ts[n - 1], ts[n];
      assert TurnAt(target, net, start, ts, n);
      InLog(Batch(a), id);
      if id in b.asked && id !in a.asked {
        var p :| p in a.shortlist && p.id == id && (p in Batch(a) || p.addrs == []);
      }
    }
  }

  lemma {:induction false} InLog(ps: seq<PeerInfo>, id: NodeId)
    ensures id in LogOf(ps) <==> exists p :: p in ps && p.id == id
  {
    if id in LogOf(ps) {
      var i :| 0 <= i < |ps| && LogOf(ps)[i] == id;
      assert ps[i] in ps;
    }
    if p :| p in ps && p.id == id {
      var i :| 0 <= i < |ps| && ps[i] == p;
      assert LogOf(ps)[i] == id;
    }
  }

  // The log of n rounds: nobody twice, as long as the calls made, and all of them marked.
  ghost predicate OnceEach(log: seq<NodeId>, t: Turn, n: nat) {
    DistinctLog(log) && |log| == t.calls <= Alpha * n && forall i :: 0 <= i < |log| ==> log[i] in t.asked
  }

  /** Nobody is called twice. */
  lemma {:induction false} CalledOnce(target: NodeId, net: Network, start: set<NodeId>, ts: seq<Turn>, n: nat)
    requires Rounds(target, net, start, ts) && n < |ts|
    ensures OnceEach(Called(ts, n), ts[n], n)
  {
    if n > 0 {
      CalledOnce(target, net, start, ts, n - 1);
      var a, b := Consecutive(target, net, start, ts, n);
      OnceMore(target, net, a, b, Called(ts, n - 1), n - 1, Called(ts, n));
    }
  }

  lemma {:induction false} Consecutive(target: NodeId, net: Network, start: set<NodeId>, ts: seq<Turn>, n: nat) returns (a: Turn, b: Turn)
    requires Rounds(target, net, start, ts) && 0 < n < |ts|
    ensures a == ts[n - 1] && b == ts[n] && Turned(net, a, b) && StrictlySorted(target, a.shortlist)
  {
    a, b := ts[n - 1], ts[n];
    assert TurnAt(target, net, start, ts, n) && TurnAt(target, net, start, ts, n - 1);
  }

  lemma {:induction false} OnceMore(target: NodeId, net: Network, a: Turn, b: Turn, log: seq<NodeId>, n: nat, more: seq<NodeId>)
    requires StrictlySorted(target, a.shortlist) && Turned(net, a, b)
    requires OnceEach(log, a, n) && more == log + LogOf(Batch(a))
    ensures OnceEach(more, b, n + 1)
  {
    var batch := Batch(a);
    BatchDistinct(target, a);
    LogGrows(log, a.asked, LogOf(batch));
    forall i | 0 <= i < |batch| ensures LogOf(batch)[i] in b.asked {
      assert batch[i] in batch;
    }
  }

  lemma {:induction false} BatchDistinct(target: NodeId, a: Turn)
    requires StrictlySorted(target, a.shortlist)
    ensures DistinctLog(LogOf(Batch(a))) && forall i :: 0 <= i < |LogOf(Batch(a))| ==> LogOf(Batch(a))[i] !in a.asked
  {
    AllDialableSorted(target, a.shortlist, a.asked);
    SortedDistinct(target, AllDialable(a.shortlist, a.asked));
    forall i | 0 <= i < |Batch(a)| ensures Batch(a)[i].id !in a.asked {
      assert Batch(a)[i] in AllDialable(a.shortlist, a.asked);
    }
  }

  /** When nobody is left to ask, everyone on the shortlist that has an address has been called, or was passed over
      while known without one. */
  lemma {:induction false} NobodyLeft(target: NodeId, net: Network, start: set<NodeId>, ts: seq<Turn>, p: PeerInfo)
    requires Rounds(target, net, start, ts)
    requires Batch(ts[|ts| - 1]) == [] && p in ts[|ts| - 1].shortlist && p.addrs != []
    ensures p.id in Called(ts, |ts| - 1)
            || exists k, q :: 0 <= k < |ts| - 1 && q in ts[k].shortlist && q.id == p.id && q.addrs == []
  {
    var last := ts[|ts| - 1];
    AllDialableIff(last.shortlist, last.asked, p);
    AskedIff(target, net, start, ts, |ts| - 1, p.id);
  }

  lemma {:induction false} LogGrows(log: seq<NodeId>, queried: set<NodeId>, dialled: seq<NodeId>)
    requires DistinctLog(log) && DistinctLog(dialled)
    requires forall i :: 0 <= i < |log| ==> log[i] in queried
    requires forall i :: 0 <= i < |dialled| ==> dialled[i] !in queried
    ensures DistinctLog(log + dialled)
  {
  }

  // How far a lookup has come.
  ghost predicate Going(target: NodeId, net: Network, start: set<NodeId>, ts: seq<Turn>, hops: nat, more: bool, cancelled: nat -> bool) {
    && |ts| == hops + 1 && hops <= MaxHops && Rounds(target, net, start, ts) && WentOn(ts, hops, cancelled)
    && (more <==> hops == 0 || ts[hops].known != ts[hops - 1].known)
  }

  lemma {:induction false} Further(target: NodeId, net: Network, start: set<NodeId>, ts: seq<Turn>, hops: nat, cancelled: nat -> bool, b: Turn, more: bool, us: seq<Turn>)
    requires Going(target, net, start, ts, hops, true, cancelled) && hops < MaxHops && !cancelled(hops) && us == ts + [b]
    requires Turned(net, ts[hops], b) && Closest20(target, net, start, b) && (more <==> b.known != ts[hops].known)
    ensures Going(target, net, start, us, hops + 1, more, cancelled)
  {
    RoundsMore(target, net, start, ts, b, us);
    forall k | 0 <= k < hops + 1 ensures AliveAt(us, k, cancelled) {
      if k < hops {
        assert AliveAt(ts, k, cancelled);
      }
    }
  }

  /** The rounds that were made, and that they ended as they must. */
  ghost predicate Ran(target: NodeId, net: Network, start: set<NodeId>, cancelled: nat -> bool, ts: seq<Turn>, r: Outcome) {
    Rounds(target, net, start, ts) && |ts| <= MaxHops + 1 && WentOn(ts, |ts| - 1, cancelled) && Ended(r, ts, cancelled)
  }

  lemma {:induction false} NoneNamed(target: NodeId, net: Network, start: set<NodeId>, first: Turn)
    requires IsClosest(target, KBucketSize, start, first.shortlist) && first.asked == {} && first.calls == 0
    ensures Closest20(target, net, start, first) && forall cancelled :: Going(target, net, start, [first], 0, true, cancelled)
  {
    assert start + Ids(Named(net, 0, 0)) == start;
  }

  // The three ways out.
  lemma {:induction false} RanOut(target: NodeId, net: Network, start: set<NodeId>, cancelled: nat -> bool, ts: seq<Turn>, hops: nat, more: bool)
    requires Going(target, net, start, ts, hops, more, cancelled) && (hops == MaxHops || !more)
    ensures Ran(target, net, start, cancelled, ts, Done(ts[hops].shortlist))
  {
  }

  lemma {:induction false} RanIdle(target: NodeId, net: Network, start: set<NodeId>, cancelled: nat -> bool, ts: seq<Turn>, hops: nat)
    requires Going(target, net, start, ts, hops, true, cancelled) && Batch(ts[hops]) == []
    ensures Ran(target, net, start, cancelled, ts, Done(ts[hops].shortlist))
  {
  }

  lemma {:induction false} RanCancelled(target: NodeId, net: Network, start: set<NodeId>, cancelled: nat -> bool, ts: seq<Turn>, hops: nat)
    requires Going(target, net, start, ts, hops, true, cancelled) && hops < MaxHops && cancelled(hops)
    ensures Ran(target, net, start, cancelled, ts, Cancelled)
  {
  }

  // The node stands where the turn says, and has only grown.
  ghost predicate Stands(node: Node, was: Holdings, t: Turn)
    reads node, node.peers.Values
  {
    node.Valid() && node.peers.Keys == t.known && Grew(was, node.Held())
  }

  // Round after round, until nobody is left, one makes no progress, the hops run out or the context ends.
  method Hops(node: Node, target: NodeId, net: Network, cancelled: nat -> bool, seeds: seq<PeerInfo>, ghost start: set<NodeId>, now: int,
              ghost was: Holdings, ghost first: Turn)
    returns (r: Outcome, ghost ts: seq<Turn>, ghost last: Turn)
    requires Stands(node, was, first) && first == Turn(seeds, {}, 0, first.known) && Going(target, net, start, [first], 0, true, cancelled)
    modifies node, node.peers.Values
    ensures Ran(target, net, start, cancelled, ts, r) && ts[0] == first && ts[|ts| - 1] == last && Stands(node, was, last)
    ensures forall id :: id in node.peers ==> node.peers[id] in old(node.peers).Values || fresh(node.peers[id])
  {
    var shortlist, queried: set<NodeId>, calls, hops, more, over := seeds, {}, 0, 0, true, false;
    ts, last, r := [first], first, Cancelled;
    while hops < MaxHops && more && !over
      invariant if over then Ran(target, net, start, cancelled, ts, r) else Going(target, net, start, ts, hops, more, cancelled)
      invariant |ts| == hops + 1 && ts[0] == first && ts[hops] == last && Stands(node, was, last)
      invariant !over ==> last == Turn(shortlist, queried, calls, last.known)
      invariant forall id :: id in node.peers ==> node.peers[id] in old(node.peers).Values || fresh(node.peers[id])
      decreases MaxHops - hops, !over
    {
      over, r, shortlist, queried, calls, more, last, ts := Hop(node, target, net, start, ts, hops, cancelled, last, shortlist, queried, calls, now, was);
      hops := if over then hops else hops + 1;
    }
    if !over {
      RanOut(target, net, start, cancelled, ts, hops, more);
      r := Done(shortlist);
    }
  }

  // One round of the lookup and the turn it comes to; or its end, when the context is cancelled or nobody is left.
  method Hop(node: Node, target: NodeId, net: Network, ghost start: set<NodeId>, ghost ts: seq<Turn>, hops: nat, cancelled: nat -> bool,
             ghost a: Turn, shortlist: seq<PeerInfo>, queried: set<NodeId>, calls: nat, now: int, ghost was: Holdings)
    returns (over: bool, r: Outcome, pruned: seq<PeerInfo>, queried': set<NodeId>, calls': nat, more: bool, ghost b: Turn, ghost ts': seq<Turn>)
    requires Going(target, net, start, ts, hops, true, cancelled) && hops < MaxHops && ts[hops] == a
    requires a == Turn(shortlist, queried, calls, a.known) && Stands(node, was, a)
    modifies node, node.peers.Values
    ensures Stands(node, was, b)
    ensures if over then ts' == ts && b == a && Ran(target, net, start, cancelled, ts, r)
            else b == Turn(pruned, queried', calls', b.known) && ts' == ts + [b] && Going(target, net, start, ts', hops + 1, more, cancelled)
    ensures forall id :: id in node.peers ==> node.peers[id] in old(node.peers).Values || fresh(node.peers[id])
  {
    over, r, pruned, queried', calls', more, b, ts' := true, Cancelled, shortlist, queried, calls, false, a, ts;
    if cancelled(hops) {
      RanCancelled(target, net, start, cancelled, ts, hops);
      return;
    }
    ghost var held := node.Held();
    assert TurnAt(target, net, start, ts, hops);
    pruned, queried', calls', more := Round(node, target, net, start, a, shortlist, queried, calls, now);
    GrewOn(was, held, node.Held());
    if calls' == calls {
      RanIdle(target, net, start, cancelled, ts, hops);
      r := Done(shortlist);
    } else {
      b := Turn(pruned, queried', calls', node.peers.Keys);
      ts' := ts + [b];
      Further(target, net, start, ts, hops, cancelled, b, more, ts');
      over := false;
    }
  }

  /** The whole lookup. Its answer is exactly the twenty IDs closest to the target among all the table
      held at the start and all that any answer named, after the rounds that Ran tells of; nobody is asked twice and
      at most Alpha * MaxHops calls are made. */
  method Lookup(node: Node, running: bool, target: NodeId, net: Network, cancelled: nat -> bool, now: int)
    returns (r: Outcome, ghost log: seq<NodeId>, ghost ts: seq<Turn>)
    requires node.Valid()
    modifies node, node.peers.Values
    ensures node.Valid() && DistinctLog(log) && |log| <= 45 && |ts| <= 16
    ensures (!running <==> r.NotRunning?) && (r.NoPeers? <==> running && old(node.TableIds()) == {})
    ensures r.Done? ==> IsClosest(target, 20, old(node.TableIds()) + Ids(Named(net, 0, |log|)), r.peers)
    ensures running && old(node.TableIds()) != {} ==>
              && Ran(target, net, old(node.TableIds()), cancelled, ts, r) && log == Called(ts, |ts| - 1)
              && ts[0].known == old(node.peers).Keys && ts[|ts| - 1].known == node.peers.Keys
    ensures forall id :: id in node.peers ==> node.peers[id] in old(node.peers).Values || fresh(node.peers[id])
    ensures Grew(old(node.Held()), node.Held())
  {
    log, ts := [], [];
    if !running {
      return NotRunning, [], [];
    }
    ghost var start := node.TableIds();
    var seeds := Seeds(node, target);
    if |seeds| == 0 {
      return NoPeers, [], [];
    }
    r, log, ts := Search(node, target, net, cancelled, seeds, start, now);
  }

  // Where it starts: the closest that the table has.
  method Seeds(node: Node, target: NodeId) returns (seeds: seq<PeerInfo>)
    requires node.Valid()
    ensures IsClosest(target, KBucketSize, node.TableIds(), seeds) && (seeds == [] <==> node.TableIds() == {})
  {
    var closest := node.FindClosest(target, KBucketSize);
    seeds := Infos(closest);
    NoSeeds(target, node.TableIds(), seeds);
  }

  // The lookup from its seeds on.
  method Search(node: Node, target: NodeId, net: Network, cancelled: nat -> bool, seeds: seq<PeerInfo>, ghost start: set<NodeId>, now: int)
    returns (r: Outcome, ghost log: seq<NodeId>, ghost ts: seq<Turn>)
    requires node.Valid() && IsClosest(target, KBucketSize, start, seeds)
    modifies node, node.peers.Values
    ensures node.Valid() && DistinctLog(log) && |log| <= Alpha * MaxHops && !r.NotRunning? && !r.NoPeers?
    ensures r.Done? ==> IsClosest(target, KBucketSize, start + Ids(Named(net, 0, |log|)), r.peers)
    ensures Ran(target, net, start, cancelled, ts, r) && log == Called(ts, |ts| - 1)
    ensures ts[0].known == old(node.peers).Keys && ts[|ts| - 1].known == node.peers.Keys
    ensures forall id :: id in node.peers ==> node.peers[id] in old(node.peers).Values || fresh(node.peers[id])
    ensures Grew(old(node.Held()), node.Held())
  {
    ghost var first := Turn(seeds, {}, 0, node.peers.Keys);
    NoneNamed(target, net, start, first);
    ghost var last;
    r, ts, last := Hops(node, target, net, cancelled, seeds, start, now, node.Held(), first);
    log := Called(ts, |ts| - 1);
    Answered(target, net, start, cancelled, ts, r, log);
  }

  lemma {:induction false} NoSeeds(target: NodeId, start: set<NodeId>, seeds: seq<PeerInfo>)
    requires IsClosest(target, KBucketSize, start, seeds)
    ensures seeds == [] <==> start == {}
  {
    if seeds != [] {
      assert seeds[0] in seeds && seeds[0].id in Ids(seeds);
    }
  }

  lemma {:induction false} LastClosest(target: NodeId, net: Network, start: set<NodeId>, ts: seq<Turn>, t: Turn)
    requires Rounds(target, net, start, ts) && t == ts[|ts| - 1]
    ensures Closest20(target, net, start, t)
  {
    assert TurnAt(target, net, start, ts, |ts| - 1);
  }

  lemma {:induction false} Answered(target: NodeId, net: Network, start: set<NodeId>, cancelled: nat -> bool, ts: seq<Turn>, r: Outcome, log: seq<NodeId>)
    requires Ran(target, net, start, cancelled, ts, r) && log == Called(ts, |ts| - 1)
    ensures DistinctLog(log) && |log| <= Alpha * MaxHops && !r.NotRunning? && !r.NoPeers?
    ensures r.Done? ==> IsClosest(target, KBucketSize, start + Ids(Named(net, 0, |log|)), r.peers)
  {
    var n, last := |ts| - 1, ts[|ts| - 1];
    CalledOnce(target, net, start, ts, n);
    LastClosest(target, net, start, ts, last);
    assert |log| == last.calls;
  }
}
