/** The routing table and the peer map, which share their peer objects. A bucket is a list of at most
    twenty peers; buckets are indexed by the position of the ID's first set bit. */
module Routing {
  import opened NodeIds
  import opened Closest
  import LeadingZeros

  const KBucketSize := 20

  /** Which bucket an ID belongs to; the all-zero ID shares bucket 0. */
  function BucketIndex(id: NodeId): (b: nat)
    ensures b < 256
  {
    var n := LeadingZeros.Count(id);
    if n > 255 then 0 else n
  }

  /** The bucket says between which two powers of two the ID lies, as a number. */
  lemma BucketIndexIff(id: NodeId, b: nat)
    requires b < 256
    ensures BucketIndex(id) == b <==>
              (LeadingZeros.Pow2(255 - b) <= LeadingZeros.BigEndian(id) < LeadingZeros.Pow2(256 - b)) || (b == 0 && id == ZeroId)
  {
    ZerosAtLeast(id, b, 256 - b);
    ZerosAtLeast(id, b + 1, 255 - b);
    NoBitSet(id);
  }

  lemma ZerosAtLeast(id: NodeId, d: nat, bits: nat)
    requires d + bits == 256
    ensures LeadingZeros.BigEndian(id) < LeadingZeros.Pow2(bits) <==> LeadingZeros.Count(id) >= d
  {
    LeadingZeros.ZerosMeanSmall(id, d);
  }

  lemma NoBitSet(id: NodeId)
    ensures LeadingZeros.Count(id) > 255 <==> id == ZeroId
  {
    ZerosAtLeast(id, 256, 0);
    BigEndianZero(id);
    ZeroIdIff(id);
    assert LeadingZeros.Pow2(0) == 1;
  }

  lemma ZeroIdIff(id: NodeId)
    ensures id == ZeroId <==> forall i :: 0 <= i < |id| ==> id[i] == 0
  {
  }

  class Peer {
    var info: PeerInfo

    constructor (info: PeerInfo)
      ensures this.info == info
    {
      this.info := info;
    }
  }

  ghost predicate NoRepeat(ps: seq<Peer>)
    reads ps
  {
    forall i, j :: 0 <= i < j < |ps| ==> ps[i].info.id != ps[j].info.id
  }

  function Infos(ps: seq<Peer>): (r: seq<PeerInfo>)
    reads ps
    ensures |r| == |ps| && forall i :: 0 <= i < |r| ==> r[i] == ps[i].info
  {
    if ps == [] then [] else Infos(ps[..|ps| - 1]) + [ps[|ps| - 1].info]
  }

  function Without(ps: seq<Peer>, k: nat): seq<Peer>
    requires k < |ps|
  {
    ps[..k] + ps[k + 1..]
  }

  /** The IDs in the table and in the map, and which buckets are full, at some moment. */
  datatype Holdings = Holdings(table: set<NodeId>, known: set<NodeId>, full: set<nat>)

  class Node {
    var buckets: seq<seq<Peer>>
    var peers: map<NodeId, Peer>

    ghost predicate BucketOk(b: nat)
      requires b < |buckets|
      reads this, peers.Values
    {
      var ps := buckets[b];
      && |ps| <= KBucketSize
      && (forall i :: 0 <= i < |ps| ==> ps[i] in peers.Values)
      && (forall i :: 0 <= i < |ps| ==> BucketIndex(ps[i].info.id) == b)
      && (forall i, j :: 0 <= i < j < |ps| ==> ps[i].info.id != ps[j].info.id)
    }

    /** Every table entry is the very object the peer map holds for its ID; buckets hold at most twenty
        distinct IDs, all of their own prefix length. */
    ghost predicate Valid()
      reads this, peers.Values
    {
      && |buckets| == 256
      && (forall id :: id in peers ==> peers[id].info.id == id)
      && (forall b :: 0 <= b < 256 ==> BucketOk(b))
    }

    constructor ()
      ensures Valid() && peers == map[] && forall b :: 0 <= b < 256 ==> buckets[b] == []
    {
      buckets := seq(256, _ => []);
      peers := map[];
    }

    lemma EntryIsMapped(b: nat, i: nat)
      requires Valid() && b < 256 && i < |buckets[b]|
      ensures buckets[b][i].info.id in peers && peers[buckets[b][i].info.id] == buckets[b][i]
    {
      assert BucketOk(b);
      var p := buckets[b][i];
      assert p in peers.Values;
      var id :| id in peers && peers[id] == p;
    }

    ghost predicate InTable(id: NodeId)
      reads this, peers.Values
      requires Valid()
    {
      var ps := buckets[BucketIndex(id)];
      assert BucketOk(BucketIndex(id));
      exists i :: 0 <= i < |ps| && ps[i].info.id == id
    }

    /** The IDs the table holds. */
    ghost function TableIds(): set<NodeId>
      requires Valid()
      reads this, peers.Values
    {
      set id | id in peers && InTable(id)
    }

    /** What the map has on record of each ID. */
    ghost function Records(): map<NodeId, PeerInfo>
      reads this, peers.Values
    {
      map id | id in peers :: peers[id].info
    }

    ghost function Held(): Holdings
      requires Valid()
      reads this, peers.Values
    {
      Holdings(TableIds(), peers.Keys, set b: nat | b < 256 && |buckets[b]| >= KBucketSize)
    }

    // An entry's ID is known.
    lemma InTableKnown(id: NodeId)
      requires Valid() && InTable(id)
      ensures id in TableIds()
    {
      var b := BucketIndex(id);
      var i :| 0 <= i < |buckets[b]| && buckets[b][i].info.id == id;
      EntryIsMapped(b, i);
    }

    // Entries that keep their IDs, in a table that only loses some: those left are the IDs of the table.
    twostate lemma TableShrunk()
      requires old(Valid()) && Valid()
      requires forall p :: p in old(peers).Values ==> p.info.id == old(p.info.id)
      requires forall b :: 0 <= b < 256 ==> forall i :: 0 <= i < |buckets[b]| ==> buckets[b][i] in old(buckets)[b]
      ensures TableIds() <= old(TableIds())
    {
      forall id | id in TableIds()
        ensures id in old(TableIds())
      {
        var b := BucketIndex(id);
        var i :| 0 <= i < |buckets[b]| && buckets[b][i].info.id == id;
        var p := buckets[b][i];
        assert old(BucketOk(b));
        var j :| 0 <= j < |old(buckets)[b]| && old(buckets)[b][j] == p;
        var x :| x in old(peers) && old(peers)[x] == p;
      }
    }

    // A table that loses nothing.
    twostate lemma TableGrown()
      requires old(Valid()) && Valid() && old(peers).Keys <= peers.Keys
      requires forall p :: p in old(peers).Values ==> p.info.id == old(p.info.id)
      requires forall b :: 0 <= b < 256 ==> forall i :: 0 <= i < |old(buckets)[b]| ==> old(buckets)[b][i] in buckets[b]
      ensures old(TableIds()) <= TableIds()
    {
      forall id | id in old(TableIds())
        ensures id in TableIds()
      {
        var b := BucketIndex(id);
        assert old(BucketOk(b));
        var i :| 0 <= i < |old(buckets)[b]| && old(buckets[b][i].info.id) == id;
        var p := old(buckets)[b][i];
        var j :| 0 <= j < |buckets[b]| && buckets[b][j] == p;
      }
    }

    // A table with one more entry.
    twostate lemma TableJoined(id: NodeId)
      requires old(Valid()) && Valid() && id !in old(peers) && peers.Keys == old(peers).Keys + {id}
      requires forall p :: p in old(peers).Values ==> p.info.id == old(p.info.id)
      requires var b := BucketIndex(id); buckets == old(buckets)[b := old(buckets)[b] + [peers[id]]]
      ensures TableIds() == old(TableIds()) + {id}
    {
      TableGrown();
      var c := BucketIndex(id);
      assert buckets[c][|old(buckets)[c]|] == peers[id];
      forall x | x in TableIds() && x != id
        ensures x in old(TableIds())
      {
        var b := BucketIndex(x);
        var i :| 0 <= i < |buckets[b]| && buckets[b][i].info.id == x;
        assert i < |old(buckets)[b]| && old(buckets)[b][i] == buckets[b][i];
        assert old(BucketOk(b));
        var p := buckets[b][i];
        var y :| y in old(peers) && old(peers)[y] == p;
      }
    }

    // Rewriting peers in place without touching their IDs, and changing one bucket properly, keeps all
    // the rest in order.
    twostate lemma OneBucketChanged(b: nat)
      requires old(Valid()) && b < 256 && |buckets| == 256 && peers == old(peers)
      requires forall c :: 0 <= c < 256 && c != b ==> buckets[c] == old(buckets)[c]
      requires forall p :: p in peers.Values ==> p.info.id == old(p.info.id)
      requires BucketOk(b)
      ensures Valid()
    {
      forall c | 0 <= c < 256
        ensures BucketOk(c)
      {
        assert c != b ==> old(BucketOk(c));
      }
    }

    // Scans one bucket for an ID; the length of the bucket when it is not there.
    method IndexIn(b: nat, id: NodeId) returns (k: nat)
      requires b < |buckets|
      ensures k <= |buckets[b]|
      ensures k < |buckets[b]| ==> buckets[b][k].info.id == id
      ensures forall i :: 0 <= i < k ==> buckets[b][i].info.id != id
    {
      k := 0;
      while k < |buckets[b]| && buckets[b][k].info.id != id
        invariant k <= |buckets[b]|
        invariant forall i :: 0 <= i < k ==> buckets[b][i].info.id != id
      {
        k := k + 1;
      }
    }

    /** Adds a peer of the map to its bucket: an ID already there is only refreshed, a full bucket
        refuses. */
    method TableAdd(p: Peer, now: int) returns (added: bool)
      requires Valid() && p in peers.Values
      modifies this`buckets, peers.Values
      ensures Valid()
      ensures forall id :: id in peers && peers[id] != p && id != old(p.info.id) ==> peers[id].info == old(peers[id].info)
      ensures p.info == old(p.info).(lastSeen := if added || old(InTable(p.info.id)) then now else old(p.info.lastSeen))
      ensures added <==> !old(InTable(p.info.id)) && |old(buckets)[BucketIndex(old(p.info.id))]| < KBucketSize
      ensures var b := BucketIndex(old(p.info.id));
              buckets == if added then old(buckets)[b := old(buckets)[b] + [p]] else old(buckets)
    {
      var b := BucketIndex(p.info.id);
      assert BucketOk(b);
      var k := IndexIn(b, p.info.id);
      if k < |buckets[b]| {
        var existing := buckets[b][k];
        existing.info := existing.info.(lastSeen := now);
        OneBucketChanged(b);
        return false;
      }
      if |buckets[b]| >= KBucketSize {
        return false;
      }
      p.info := p.info.(lastSeen := now);
      buckets := buckets[b := buckets[b] + [p]];
      OneBucketChanged(b);
      return true;
    }

    method Enter(pi: PeerInfo, now: int)
      requires Valid()
      modifies this, peers.Values
      ensures Valid()
      ensures peers.Keys == old(peers).Keys + {pi.id}
      ensures peers[pi.id].info == pi.(lastSeen := if pi.id !in old(peers) && |old(buckets)[BucketIndex(pi.id)]| < KBucketSize then now else pi.lastSeen)
      ensures forall id :: id in old(peers) ==> peers[id] == old(peers)[id] && (id != pi.id ==> peers[id].info == old(peers[id].info))
      ensures pi.id in old(peers) ==> buckets == old(buckets)
      ensures pi.id !in old(peers) ==> fresh(peers[pi.id])
      ensures pi.id !in old(peers) ==> var b := BucketIndex(pi.id);
              buckets == if |old(buckets)[b]| < KBucketSize then old(buckets)[b := old(buckets)[b] + [peers[pi.id]]]
                         else old(buckets)
    {
      if pi.id in peers {
        peers[pi.id].info := pi;
        assert old(BucketOk(0));
        OneBucketChanged(0);
      } else {
        var peer := new Peer(pi);
        NotInTable(pi.id);
        peers := peers[pi.id := peer];
        assert pi.id in peers && peer in peers.Values;
        NewPeerKeepsValid(pi.id);
        var added := TableAdd(peer, now);
      }
    }

    /** Records what is known of a peer: an existing object is rewritten in place, so the table sees it
        too; a new one is entered in the map and offered to the table. */
    method StorePeer(pi: PeerInfo, now: int)
      requires Valid()
      modifies this, peers.Values
      ensures Valid()
      ensures peers.Keys == old(peers).Keys + {pi.id}
      ensures peers[pi.id].info == pi.(lastSeen := if pi.id !in old(peers) && |old(buckets)[BucketIndex(pi.id)]| < KBucketSize then now else pi.lastSeen)
      ensures forall id :: id in old(peers) ==> peers[id] == old(peers)[id] && (id != pi.id ==> peers[id].info == old(peers[id].info))
      ensures pi.id in old(peers) ==> buckets == old(buckets)
      ensures pi.id !in old(peers) ==> fresh(peers[pi.id])
      ensures pi.id !in old(peers) ==> var b := BucketIndex(pi.id);
              buckets == if |old(buckets)[b]| < KBucketSize then old(buckets)[b := old(buckets)[b] + [peers[pi.id]]]
                         else old(buckets)
      ensures forall id :: id in peers ==> peers[id] in old(peers).Values || fresh(peers[id])
      ensures TableIds() == old(TableIds()) + if pi.id !in old(peers) && |old(buckets)[BucketIndex(pi.id)]| < KBucketSize then {pi.id} else {}
      ensures Grew(old(Held()), Held())
    {
      Enter(pi, now);
      forall p | p in old(peers).Values
        ensures p.info.id == old(p.info.id)
      {
        var x :| x in old(peers) && old(peers)[x] == p;
      }
      if buckets == old(buckets) {
        TableShrunk();
        TableGrown();
      } else {
        TableJoined(pi.id);
      }
    }

    // A peer that is not in the map is not in the table.
    lemma NotInTable(id: NodeId)
      requires Valid() && id !in peers
      ensures !InTable(id)
    {
      var b := BucketIndex(id);
      forall i | 0 <= i < |buckets[b]|
        ensures buckets[b][i].info.id != id
      {
        EntryIsMapped(b, i);
      }
    }

    twostate lemma NewPeerKeepsValid(id: NodeId)
      requires old(Valid()) && id !in old(peers) && id in peers && peers[id].info.id == id
      requires forall x :: x in old(peers) ==> x in peers && peers[x] == old(peers)[x]
      requires peers.Keys == old(peers).Keys + {id}
      requires buckets == old(buckets)
      requires forall p :: p in old(peers).Values ==> p.info == old(p.info)
      ensures Valid()
      ensures !old(InTable(id)) ==> !InTable(id)
    {
      forall p | p in old(peers).Values
        ensures p in peers.Values
      {
        var x :| x in old(peers) && old(peers)[x] == p;
        assert x in peers && peers[x] == p;
      }
      forall b | 0 <= b < 256
        ensures BucketOk(b)
      {
        assert old(BucketOk(b));
      }
      var b := BucketIndex(id);
      assert old(BucketOk(b));
      assert forall i :: 0 <= i < |buckets[b]| ==> buckets[b][i].info.id == old(buckets[b][i].info.id);
    }

    // KBucket.Remove: drops the entry with this ID, if any, and closes the gap.
    method RemoveFrom(b: nat, id: NodeId) returns (ghost k: nat)
      requires Valid() && b < 256
      modifies this`buckets
      ensures Valid() && k <= |old(buckets)[b]|
      ensures if k < |old(buckets)[b]| then old(buckets)[b][k].info.id == id && buckets == old(buckets)[b := Without(old(buckets)[b], k)]
              else buckets == old(buckets) && forall i :: 0 <= i < |buckets[b]| ==> buckets[b][i].info.id != id
    {
      assert BucketOk(b);
      var at := IndexIn(b, id);
      k := at;
      if at < |buckets[b]| {
        buckets := buckets[b := Without(buckets[b], at)];
        OneBucketChanged(b);
      }
    }

    /** Takes a peer out of the table; the peer map keeps it. */
    method Remove(id: NodeId) returns (ghost k: nat)
      requires Valid()
      modifies this`buckets
      ensures Valid() && k <= |old(buckets)[BucketIndex(id)]|
      ensures var b := BucketIndex(id);
              if k < |old(buckets)[b]| then old(buckets)[b][k].info.id == id && buckets == old(buckets)[b := Without(old(buckets)[b], k)]
              else buckets == old(buckets) && forall i :: 0 <= i < |buckets[b]| ==> buckets[b][i].info.id != id
      ensures TableIds() == old(TableIds()) - {id}
    {
      ghost var keep := TableIds() - {id};
      k := RemoveFrom(BucketIndex(id), id);
      forall c | 0 <= c < 256
        ensures Sifted(old(buckets)[c], buckets[c], keep)
      {
        assert old(BucketOk(c));
        if c == BucketIndex(id) && k < |old(buckets)[c]| {
          WithoutMembers(old(buckets)[c], k);
        }
      }
      TableSifted(keep);
    }

    // A table of which only the entries with these IDs are left.
    twostate lemma TableSifted(keep: set<NodeId>)
      requires old(Valid()) && Valid() && peers == old(peers) && (forall p :: p in peers.Values ==> p.info == old(p.info))
      requires forall c :: 0 <= c < 256 ==> Sifted(old(buckets)[c], buckets[c], keep)
      ensures TableIds() == old(TableIds()) * keep
    {
      TableShrunk();
      forall id | id in old(TableIds())
        ensures id in TableIds() <==> id in keep
      {
        var b := BucketIndex(id);
        assert old(BucketOk(b)) && BucketOk(b);
        var i :| 0 <= i < |old(buckets)[b]| && old(buckets[b][i].info.id) == id;
        var p := old(buckets)[b][i];
        assert Sifted(old(buckets)[b], buckets[b], keep);
      }
    }

    // One bucket of PruneStale: walk a copy, remove what is stale from the bucket itself.
    method PruneBucket(b: nat, cutoff: int) returns (removed: nat)
      requires Valid() && b < 256
      modifies this`buckets
      ensures Valid() && (forall c :: 0 <= c < 256 && c != b ==> buckets[c] == old(buckets)[c])
      ensures Pruned(old(buckets)[b], buckets[b], cutoff)
      ensures removed == |old(buckets)[b]| - |buckets[b]|
    {
      assert BucketOk(b);
      var all := buckets[b];
      removed := 0;
      var i := 0;
      while i < |all|
        invariant i <= |all| && Valid() && removed == |all| - |buckets[b]|
        invariant forall c :: 0 <= c < 256 && c != b ==> buckets[c] == old(buckets)[c]
        invariant forall j :: 0 <= j < |all| ==> (all[j] in buckets[b] <==> j >= i || all[j].info.lastSeen >= cutoff)
        invariant forall j :: 0 <= j < |buckets[b]| ==> buckets[b][j] in all
      {
        var p := all[i];
        if p.info.lastSeen < cutoff {
          assert BucketOk(b);
          ghost var cur := buckets[b];
          var k := RemoveFrom(b, p.info.id);
          assert k < |cur| && cur[k] == p;
          WithoutMembers(cur, k);
          removed := removed + 1;
        }
        i := i + 1;
      }
    }

    /** Drops every peer last seen before the cutoff, from every bucket, and counts them. */
    method PruneStale(cutoff: int) returns (removed: nat)
      requires Valid()
      modifies this`buckets
      ensures Valid()
      ensures forall b :: 0 <= b < 256 ==> Pruned(old(buckets)[b], buckets[b], cutoff)
      ensures removed == Total(old(buckets), 256) - Total(buckets, 256)
      ensures TableIds() == set id | id in old(TableIds()) && peers[id].info.lastSeen >= cutoff
    {
      removed := 0;
      var b := 0;
      while b < 256
        invariant b <= 256 && Valid()
        invariant forall c :: 0 <= c < b ==> Pruned(old(buckets)[c], buckets[c], cutoff)
        invariant forall c :: b <= c < 256 ==> buckets[c] == old(buckets)[c]
        invariant removed == Total(old(buckets), b) - Total(buckets, b)
      {
        ghost var before := buckets;
        var n := PruneBucket(b, cutoff);
        TotalPrefix(before, buckets, b);
        removed := removed + n;
        b := b + 1;
      }
      PrunedIds(cutoff);
    }

    // Pruning by time leaves the IDs whose peer was seen in time.
    twostate lemma PrunedIds(cutoff: int)
      requires old(Valid()) && Valid() && peers == old(peers) && (forall p :: p in peers.Values ==> p.info == old(p.info))
      requires forall c :: 0 <= c < 256 ==> Pruned(old(buckets)[c], buckets[c], cutoff)
      ensures TableIds() == set id | id in old(TableIds()) && peers[id].info.lastSeen >= cutoff
    {
      var keep := set id | id in peers && peers[id].info.lastSeen >= cutoff;
      forall c | 0 <= c < 256
        ensures Sifted(old(buckets)[c], buckets[c], keep)
      {
        assert old(BucketOk(c)) && Pruned(old(buckets)[c], buckets[c], cutoff);
        forall j | 0 <= j < |old(buckets)[c]|
          ensures old(buckets)[c][j].info.id in keep <==> old(buckets)[c][j].info.lastSeen >= cutoff
        {
          var x :| x in old(peers) && old(peers)[x] == old(buckets)[c][j];
        }
      }
      TableSifted(keep);
    }

    /** Every peer of the table, bucket by bucket. */
    method AllPeers() returns (all: seq<Peer>)
      requires Valid()
      ensures |all| == Total(buckets, 256) && NoRepeat(all)
      ensures forall i :: 0 <= i < |all| ==> all[i] in peers.Values && all[i] in buckets[BucketIndex(all[i].info.id)]
      ensures forall b, i :: 0 <= b < 256 && 0 <= i < |buckets[b]| ==> buckets[b][i] in all
    {
      all := [];
      var b := 0;
      while b < 256
        invariant b <= 256 && |all| == Total(buckets, b) && NoRepeat(all)
        invariant forall i :: 0 <= i < |all| ==> all[i] in peers.Values && BucketIndex(all[i].info.id) < b
        invariant forall i :: 0 <= i < |all| ==> all[i] in buckets[BucketIndex(all[i].info.id)]
        invariant forall c, i :: 0 <= c < b && 0 <= i < |buckets[c]| ==> buckets[c][i] in all
      {
        assert BucketOk(b);
        all := all + buckets[b];
        b := b + 1;
      }
    }

    lemma ListedIsInTable(all: seq<Peer>, i: nat)
      requires Valid() && i < |all| && all[i] in peers.Values && all[i] in buckets[BucketIndex(all[i].info.id)]
      ensures all[i].info.id in TableIds() && peers[all[i].info.id] == all[i]
    {
      var b := BucketIndex(all[i].info.id);
      var k :| 0 <= k < |buckets[b]| && buckets[b][k] == all[i];
      EntryIsMapped(b, k);
    }

    lemma InTableIsListed(all: seq<Peer>, id: NodeId) returns (i: nat)
      requires Valid() && id in TableIds()
      requires forall b, i :: 0 <= b < 256 && 0 <= i < |buckets[b]| ==> buckets[b][i] in all
      ensures i < |all| && all[i] in peers.Values && all[i].info.id == id
    {
      var b := BucketIndex(id);
      assert BucketOk(b);
      var k :| 0 <= k < |buckets[b]| && buckets[b][k].info.id == id;
      assert buckets[b][k] in all;
      i :| 0 <= i < |all| && all[i] == buckets[b][k];
    }

    lemma AllIds(all: seq<Peer>, infos: seq<PeerInfo>)
      requires Valid()
      requires forall i :: 0 <= i < |all| ==> all[i] in peers.Values && all[i] in buckets[BucketIndex(all[i].info.id)]
      requires forall b, i :: 0 <= b < 256 && 0 <= i < |buckets[b]| ==> buckets[b][i] in all
      requires |infos| == |all| && forall i :: 0 <= i < |all| ==> infos[i] == all[i].info
      ensures Ids(infos) == TableIds()
      ensures forall p :: p in infos ==> p.id in peers && peers[p.id].info == p
    {
      forall id | id in Ids(infos)
        ensures id in TableIds()
      {
        InIds(infos, id);
        var i :| 0 <= i < |infos| && infos[i].id == id;
        ListedIsInTable(all, i);
      }
      forall id | id in TableIds()
        ensures id in Ids(infos)
      {
        var i := InTableIsListed(all, id);
        assert infos[i].id == id;
        InIds(infos, id);
      }
      forall p | p in infos
        ensures p.id in peers && peers[p.id].info == p
      {
        var i :| 0 <= i < |infos| && infos[i] == p;
        ListedIsInTable(all, i);
      }
    }

    // The objects behind a list of entries.
    method Behind(cut: seq<PeerInfo>) returns (result: seq<Peer>)
      requires Valid() && forall i :: 0 <= i < |cut| ==> cut[i].id in peers && peers[cut[i].id].info == cut[i]
      ensures Infos(result) == cut
      ensures forall i :: 0 <= i < |result| ==> result[i].info.id in peers && result[i] == peers[result[i].info.id]
    {
      result := seq(|cut|, i requires 0 <= i < |cut| && cut[i].id in peers reads this => peers[cut[i].id]);
      assert Infos(result) == cut;
    }

    // What the table knows of the n peers closest to the target.
    method Nearest(target: NodeId, n: nat) returns (cut: seq<PeerInfo>)
      requires Valid()
      ensures IsClosest(target, n, TableIds(), cut)
      ensures forall i :: 0 <= i < |cut| ==> cut[i].id in peers && peers[cut[i].id].info == cut[i]
    {
      var all := AllPeers();
      var infos := Infos(all);
      AllIds(all, infos);
      CutIsClosest(target, n, infos);
      cut := Cut(target, n, infos);
    }

    /** The n peers of the table closest to the target, nearest first: exactly min(n, size) of them, and first the
        target itself if the table has it. */
    method FindClosest(target: NodeId, n: nat) returns (result: seq<Peer>)
      requires Valid()
      ensures IsClosest(target, n, TableIds(), Infos(result))
      ensures forall i :: 0 <= i < |result| ==> result[i].info.id in peers && result[i] == peers[result[i].info.id]
      ensures target in TableIds() && n > 0 ==> |result| > 0 && result[0].info.id == target
    {
      var cut := Nearest(target, n);
      result := Behind(cut);
      if target in TableIds() && n > 0 {
        SelfFirst(target, n, TableIds(), cut);
        assert Infos(result)[0] == result[0].info;
      }
    }
  }

  /** Table and map have only grown, the table by IDs new to the map; and of those, only the ones whose bucket is
      full are not in it. */
  ghost predicate Grew(a: Holdings, b: Holdings) {
    && a.table <= b.table && a.known <= b.known && a.full <= b.full
    && b.table * a.known <= a.table
    && forall id :: id in b.known && id !in a.known ==> id in b.table || BucketIndex(id) in b.full
  }

  lemma GrewOn(a: Holdings, b: Holdings, c: Holdings)
    requires Grew(a, b) && Grew(b, c)
    ensures Grew(a, c)
  {
  }

  // What is left of a bucket: exactly the entries seen at or after the cutoff.
  ghost predicate Pruned(was: seq<Peer>, now: seq<Peer>, cutoff: int)
    reads was
  {
    && (forall j :: 0 <= j < |was| ==> (was[j] in now <==> was[j].info.lastSeen >= cutoff))
    && (forall j :: 0 <= j < |now| ==> now[j] in was)
  }

  // What is left of a bucket: exactly the entries with these IDs.
  ghost predicate Sifted(was: seq<Peer>, now: seq<Peer>, keep: set<NodeId>)
    reads was
  {
    && (forall j :: 0 <= j < |was| ==> (was[j] in now <==> was[j].info.id in keep))
    && (forall j :: 0 <= j < |now| ==> now[j] in was)
  }

  lemma WithoutMembers(ps: seq<Peer>, k: nat)
    requires k < |ps| && forall i, j :: 0 <= i < j < |ps| ==> ps[i] != ps[j]
    ensures forall x :: x in Without(ps, k) <==> x in ps && x != ps[k]
  {
    assert ps == ps[..k] + [ps[k]] + ps[k + 1..];
    forall x | x in ps && x != ps[k]
      ensures x in Without(ps, k)
    {
      var i :| 0 <= i < |ps| && ps[i] == x;
      assert Without(ps, k)[if i < k then i else i - 1] == x;
    }
  }

  function Total(bs: seq<seq<Peer>>, n: nat): nat
    requires n <= |bs|
  {
    if n == 0 then 0 else Total(bs, n - 1) + |bs[n - 1]|
  }

  lemma {:induction false} TotalPrefix(bs: seq<seq<Peer>>, cs: seq<seq<Peer>>, n: nat)
    requires n <= |bs| && n <= |cs| && forall i :: 0 <= i < n ==> bs[i] == cs[i]
    ensures Total(bs, n) == Total(cs, n)
  {
    if n > 0 {
      TotalPrefix(bs, cs, n - 1);
    }
  }
}
