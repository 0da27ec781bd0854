/** Any number of replicas inserting, deleting and merging in any interleaving. */
module RgaSystem {
  import opened Bytes
  import opened RgaIds
  import opened RgaModel
  import opened RgaMerge
  import opened RgaCatchUp
  import opened RgaExchange
  import opened RgaSnapshot

  datatype Replica = Replica(doc: Doc, clock: nat)
  type System = map<bytes, Replica>

  datatype Step =
    | Insert(name: bytes, after: bytes, value: bytes)
    | Delete(name: bytes, id: bytes)
    | MergeFrom(name: bytes, other: bytes)

  const Empty: Replica := Replica([Head], 0)

  // The node to insert after: the named one, or the last when there is none of that name.
  function Anchor(s: Doc, after: bytes): (a: nat)
    requires |s| > 0
    ensures a < |s|
  {
    var f := Find(s, after);
    if f < |s| then f else |s| - 1
  }

  // Hangs n off the anchor.
  function Attach(s: Doc, after: bytes, n: Elem): Doc
    requires |s| > 0
  {
    var a := Anchor(s, after);
    var e := n.(origin := s[a].id);
    InsertAt(s, InsertPos(s, a, e), e)
  }

  /** A local insert by the replica of this name. */
  function LocalInsert(r: Replica, name: bytes, after: bytes, value: bytes): Replica
    requires |r.doc| > 0
  {
    var n := Elem(MintId(r.clock + 1, name, value), value, r.clock + 1, name, false, []);
    Replica(Attach(r.doc, after, n), r.clock + 1)
  }

  function Next(y: System, step: Step): System {
    if step.name !in y then y
    else
      var r := y[step.name];
      match step
      case Insert(name, after, value) => if |r.doc| > 0 then y[name := LocalInsert(r, name, after, value)] else y
      case Delete(name, id) => y[name := r.(doc := Erase(r.doc, id))]
      case MergeFrom(name, other) =>
        if other in y && other != name then y[name := r.(doc := Merge(r.doc, y[other].doc))] else y
  }

  function RunSteps(y: System, steps: seq<Step>): System {
    if steps == [] then y else Next(RunSteps(y, steps[..|steps| - 1]), steps[|steps| - 1])
  }

  function Start(names: set<bytes>): System {
    map name | name in names :: Empty
  }

  // ---------- the invariant ----------

  // Every node was minted by a replica of the system, no later than that replica's clock.
  ghost predicate Minted(y: System, e: Elem) {
    && e.author in y && 1 <= e.ts <= y[e.author].clock
    && e.id == MintId(e.ts, e.author, e.value)
  }

  ghost predicate AllMinted(y: System) {
    forall name, i :: name in y && 1 <= i < |y[name].doc| ==> Minted(y, y[name].doc[i])
  }

  // One mint, one value: nodes with the same key carry the same ID wherever they are.
  ghost predicate OneMint(y: System) {
    forall name, name' :: name in y && name' in y ==> Compatible(y[name].doc, y[name'].doc)
  }

  ghost predicate AllWellFormed(y: System) {
    forall name :: name in y ==> WellFormed(y[name].doc)
  }

  ghost predicate Inv(y: System) {
    AllWellFormed(y) && AllMinted(y) && OneMint(y)
  }

  ghost predicate Nameable(names: set<bytes>) {
    forall n, m :: n in names && m in names && n != m ==> !Confusable(n, m)
  }

  lemma InvGivesMergeable(y: System, s: bytes, t: bytes)
    requires Inv(y) && s in y && t in y
    ensures Compatible(y[s].doc, y[t].doc) && KeysApart(y[t].doc)
  {
    var d := y[t].doc;
    forall i, j | 1 <= i < j < |d|
      ensures !SameKey(d[i], d[j])
    {
      assert d[i].id != d[j].id;
    }
  }

  // The node a replica mints next is new everywhere.
  lemma NextMintFresh(y: System, name: bytes, value: bytes, e: Elem)
    requires Nameable(y.Keys) && name in y && Minted(y, e)
    ensures MintId(y[name].clock + 1, name, value) != e.id
    ensures !(e.ts == y[name].clock + 1 && e.author == name)
  {
    if MintId(y[name].clock + 1, name, value) == e.id {
      MintIdInjective(y[name].clock + 1, name, value, e.ts, e.author, e.value);
      assert false;
    }
  }

  lemma MintIsNotHead(clock: nat, name: bytes, value: bytes)
    ensures MintId(clock, name, value) != HeadId
  {
    assert MintId(clock, name, value)[0] == Decimal(clock)[0];
    assert HeadId[0] == 104;
  }

  // Replacing one replica by one whose nodes are all accounted for keeps the invariant.
  lemma UpdateKeepsInv(y: System, name: bytes, r: Replica)
    requires Inv(y) && name in y && WellFormed(r.doc) && r.clock >= y[name].clock
    requires forall i :: 1 <= i < |r.doc| ==> Minted(y[name := r], r.doc[i])
    requires KeysApart(r.doc) && forall name' :: name' in y ==> Compatible(r.doc, y[name'].doc)
    ensures Inv(y[name := r])
  {
    var z := y[name := r];
    forall n, i | n in z && 1 <= i < |z[n].doc|
      ensures Minted(z, z[n].doc[i])
    {
      if n != name {
        assert Minted(y, y[n].doc[i]);
      }
    }
    forall n, n' | n in z && n' in z
      ensures Compatible(z[n].doc, z[n'].doc)
    {
      if n == name && n' == name {
        SelfCompatible(r.doc);
      } else if n' == name {
        CompatibleSymmetric(r.doc, y[n].doc);
      }
    }
  }

  lemma SelfCompatible(d: Doc)
    requires KeysApart(d)
    ensures Compatible(d, d)
  {
    forall i, j | 1 <= i < |d| && 1 <= j < |d| && SameKey(d[i], d[j])
      ensures d[i].id == d[j].id
    {
      assert i == j;
    }
  }

  lemma CompatibleSymmetric(s: Doc, t: Doc)
    requires Compatible(s, t)
    ensures Compatible(t, s)
  {
    forall i, j | 1 <= i < |t| && 1 <= j < |s| && SameKey(t[i], s[j])
      ensures t[i].id == s[j].id
    {
      assert SameKey(s[j], t[i]);
    }
  }

  // ---------- the three steps ----------

  lemma EraseKeepsInv(y: System, name: bytes, id: bytes)
    requires Inv(y) && name in y
    ensures Inv(y[name := y[name].(doc := Erase(y[name].doc, id))])
  {
    var d := y[name].doc;
    var r := y[name].(doc := Erase(d, id));
    EraseWellFormed(d, id);
    EraseFind(d, id, id);
    forall i | 1 <= i < |r.doc|
      ensures Minted(y[name := r], r.doc[i])
    {
      assert Minted(y, d[i]);
    }
    InvGivesMergeable(y, name, name);
    forall i, j | 1 <= i < j < |r.doc|
      ensures !SameKey(r.doc[i], r.doc[j])
    {
      assert !SameKey(d[i], d[j]);
    }
    forall name' | name' in y
      ensures Compatible(r.doc, y[name'].doc)
    {
      var t := y[name'].doc;
      assert Compatible(d, t);
      forall i, j | 1 <= i < |r.doc| && 1 <= j < |t| && SameKey(r.doc[i], t[j])
        ensures r.doc[i].id == t[j].id
      {
        assert SameKey(d[i], t[j]);
      }
    }
    UpdateKeepsInv(y, name, r);
  }

  // The parts of a local insert: which node, where, and that it is new.
  lemma LocalInsertIsPlace(y: System, name: bytes, after: bytes, value: bytes) returns (n: Elem)
    requires Inv(y) && Nameable(y.Keys) && name in y
    ensures LocalInsert(y[name], name, after, value) == Replica(Place(y[name].doc, n), y[name].clock + 1)
    ensures n.ts == y[name].clock + 1 && n.author == name && n.id == MintId(n.ts, name, n.value)
    ensures Has(y[name].doc, n.origin) && Fresh(y[name].doc, n)
  {
    var r := y[name];
    var a := Anchor(r.doc, after);
    n := Elem(MintId(r.clock + 1, name, value), value, r.clock + 1, name, false, r.doc[a].id);
    FindAt(r.doc, a);
    forall i | 0 <= i < |r.doc|
      ensures r.doc[i].id != n.id && (i > 0 ==> !SameKey(r.doc[i], n))
    {
      if i == 0 {
        MintIsNotHead(r.clock + 1, name, value);
      } else {
        assert Minted(y, r.doc[i]);
        NextMintFresh(y, name, value, r.doc[i]);
      }
    }
  }

  lemma InsertKeepsInv(y: System, name: bytes, after: bytes, value: bytes)
    requires Inv(y) && Nameable(y.Keys) && name in y
    ensures Inv(y[name := LocalInsert(y[name], name, after, value)])
  {
    var n := LocalInsertIsPlace(y, name, after, value);
    var r := Replica(Place(y[name].doc, n), y[name].clock + 1);
    PlaceWellFormed(y[name].doc, n);
    InvGivesMergeable(y, name, name);
    PlacedNodes(y[name].doc, n);
    PlacedMinted(y, name, n, r);
    forall name' | name' in y
      ensures Compatible(r.doc, y[name'].doc)
    {
      NewNodeCompatible(y, name, n, r.doc, name');
    }
    UpdateKeepsInv(y, name, r);
  }

  lemma PlacedMinted(y: System, name: bytes, n: Elem, r: Replica)
    requires AllMinted(y) && name in y && r.clock == y[name].clock + 1
    requires n.ts == y[name].clock + 1 && n.author == name && n.id == MintId(n.ts, name, n.value)
    requires forall i :: 1 <= i < |r.doc| ==> r.doc[i] == n || exists x :: 1 <= x < |y[name].doc| && y[name].doc[x] == r.doc[i]
    ensures forall i :: 1 <= i < |r.doc| ==> Minted(y[name := r], r.doc[i])
  {
    forall i | 1 <= i < |r.doc|
      ensures Minted(y[name := r], r.doc[i])
    {
      if r.doc[i] != n {
        var x :| 1 <= x < |y[name].doc| && y[name].doc[x] == r.doc[i];
        assert Minted(y, y[name].doc[x]);
      }
    }
  }

  lemma PlacedNodes(d: Doc, n: Elem)
    requires WellFormed(d) && Fresh(d, n) && Has(d, n.origin) && KeysApart(d)
    ensures forall i :: 1 <= i < |Place(d, n)| ==> Place(d, n)[i] == n || exists x :: 1 <= x < |d| && d[x] == Place(d, n)[i]
    ensures KeysApart(Place(d, n))
  {
    var k := InsertPos(d, Find(d, n.origin), n);
    Spliced(d, n, k, Place(d, n));
  }

  lemma Spliced(d: Doc, n: Elem, k: nat, r: Doc)
    requires 1 <= k <= |d| && Fresh(d, n) && KeysApart(d) && r == d[..k] + [n] + d[k..]
    ensures forall i :: 1 <= i < |r| ==> r[i] == n || exists x :: 1 <= x < |d| && d[x] == r[i]
    ensures KeysApart(r)
  {
    forall i | 1 <= i < |r| && i != k
      ensures exists x :: 1 <= x < |d| && d[x] == r[i]
    {
      assert d[if i < k then i else i - 1] == r[i];
    }
    forall i, j | 1 <= i < j < |r|
      ensures !SameKey(r[i], r[j])
    {
      var i', j' := if i < k then i else i - 1, if j < k then j else j - 1;
      assert i != k ==> r[i] == d[i'];
      assert j != k ==> r[j] == d[j'];
    }
  }

  lemma NewNodeCompatible(y: System, name: bytes, n: Elem, r: Doc, name': bytes)
    requires Inv(y) && name in y && name' in y && n.ts == y[name].clock + 1 && n.author == name
    requires forall i :: 1 <= i < |r| ==> r[i] == n || exists x :: 1 <= x < |y[name].doc| && y[name].doc[x] == r[i]
    ensures Compatible(r, y[name'].doc)
  {
    var d, t := y[name].doc, y[name'].doc;
    assert Compatible(d, t);
    forall i, j | 1 <= i < |r| && 1 <= j < |t| && SameKey(r[i], t[j])
      ensures r[i].id == t[j].id
    {
      assert Minted(y, t[j]);
    }
  }

  // A merged node is a node one of the two replicas already held.
  lemma MergedFrom(y: System, name: bytes, other: bytes, k: nat) returns (who: bytes, i: nat)
    requires Inv(y) && name in y && other in y && 1 <= k < |Merge(y[name].doc, y[other].doc)|
    ensures who in y && 1 <= i < |y[who].doc| && SameMint(Merge(y[name].doc, y[other].doc)[k], y[who].doc[i])
  {
    var s, t := y[name].doc, y[other].doc;
    var m := Merge(s, t);
    InvGivesMergeable(y, name, other);
    MergeInvariant(s, t, |t|);
    MergedNode(s, t, k);
    assert m[k].id != m[0].id;
    if Has(s, m[k].id) {
      who, i := name, Find(s, m[k].id);
    } else {
      who, i := other, Find(t, m[k].id);
    }
  }

  lemma MergedCompatible(y: System, name: bytes, other: bytes, u: bytes)
    requires Inv(y) && name in y && other in y && u in y
    ensures Compatible(Merge(y[name].doc, y[other].doc), y[u].doc)
  {
    var m, d := Merge(y[name].doc, y[other].doc), y[u].doc;
    forall k, j | 1 <= k < |m| && 1 <= j < |d| && SameKey(m[k], d[j])
      ensures m[k].id == d[j].id
    {
      var who, i := MergedFrom(y, name, other, k);
      assert Compatible(y[who].doc, d);
    }
  }

  lemma MergedKeysApart(y: System, name: bytes, other: bytes)
    requires Inv(y) && name in y && other in y && Distinct(Merge(y[name].doc, y[other].doc))
    ensures KeysApart(Merge(y[name].doc, y[other].doc))
  {
    var m := Merge(y[name].doc, y[other].doc);
    forall k, l | 1 <= k < l < |m|
      ensures !SameKey(m[k], m[l])
    {
      var who, i := MergedFrom(y, name, other, k);
      var who', i' := MergedFrom(y, name, other, l);
      assert Compatible(y[who].doc, y[who'].doc);
    }
  }

  lemma MergeKeepsInv(y: System, name: bytes, other: bytes)
    requires Inv(y) && name in y && other in y
    ensures Inv(y[name := y[name].(doc := Merge(y[name].doc, y[other].doc))])
  {
    var s, t := y[name].doc, y[other].doc;
    var m := Merge(s, t);
    InvGivesMergeable(y, name, other);
    MergeInvariant(s, t, |t|);
    var r := y[name].(doc := m);
    forall k | 1 <= k < |m|
      ensures Minted(y[name := r], m[k])
    {
      var who, i := MergedFrom(y, name, other, k);
      assert Minted(y, y[who].doc[i]);
    }
    MergedKeysApart(y, name, other);
    forall u | u in y
      ensures Compatible(m, y[u].doc)
    {
      MergedCompatible(y, name, other, u);
    }
    UpdateKeepsInv(y, name, r);
  }

  // ---------- whole runs ----------

  lemma StartInv(names: set<bytes>)
    ensures Inv(Start(names))
  {
    FindAt([Head], 0);
  }

  lemma NextKeepsInv(y: System, step: Step)
    requires Inv(y) && Nameable(y.Keys)
    ensures Inv(Next(y, step)) && Next(y, step).Keys == y.Keys
  {
    if step.name in y {
      match step
      case Insert(name, after, value) => InsertKeepsInv(y, name, after, value);
      case Delete(name, id) => EraseKeepsInv(y, name, id);
      case MergeFrom(name, other) =>
        if other in y && other != name {
          MergeKeepsInv(y, name, other);
        }
    }
  }

  /** In every run of any number of replicas, every replica's list keeps the structural invariant: unique
      IDs, origins first, a parent followed by a child, siblings in (Timestamp, Author) order. */
  lemma {:induction false} EveryRunWellFormed(names: set<bytes>, steps: seq<Step>)
    requires Nameable(names)
    ensures Inv(RunSteps(Start(names), steps)) && RunSteps(Start(names), steps).Keys == names
  {
    if steps == [] {
      StartInv(names);
    } else {
      EveryRunWellFormed(names, steps[..|steps| - 1]);
      NextKeepsInv(RunSteps(Start(names), steps[..|steps| - 1]), steps[|steps| - 1]);
    }
  }

  // A replica that has merged a node with the ID it mints next gets two nodes of that ID.
  lemma {:induction false} ConfusedRun(names: set<bytes>, n: bytes, m: bytes, v: bytes, w: bytes)
    requires n in names && m in names && n != m && MintId(1, n, v) == MintId(1, m, w)
    ensures !AllWellFormed(RunSteps(Start(names), [Insert(m, HeadId, w), MergeFrom(n, m), Insert(n, HeadId, v)]))
  {
    var id := MintId(1, m, w);
    var e := Elem(id, w, 1, m, false, HeadId);
    var y0 := Start(names);
    var y1 := Next(y0, Insert(m, HeadId, w));
    FindAt([Head], 0);
    assert y1[m].doc == [Head, e];
    MintIsNotHead(1, m, w);
    var y2 := Next(y1, MergeFrom(n, m));
    MergeOne(e);
    assert y2[n] == Replica([Head, e], 0);
    var y3 := Next(y2, Insert(n, HeadId, v));
    var e' := Elem(id, v, 1, n, false, HeadId);
    assert Find([Head, e], HeadId) == 0;
    var d := y3[n].doc;
    assert d == InsertAt([Head, e], InsertPos([Head, e], 0, e'), e');
    SecondOfId([Head, e], InsertPos([Head, e], 0, e'), e', 1);
    ThreeSteps(y0, Insert(m, HeadId, w), MergeFrom(n, m), Insert(n, HeadId, v));
  }

  lemma ThreeSteps(y: System, a: Step, b: Step, c: Step)
    ensures RunSteps(y, [a, b, c]) == Next(Next(Next(y, a), b), c)
  {
    var steps := [a, b, c];
    assert steps[..2] == [a, b] && [a, b][..1] == [a] && [a][..0] == [];
    assert RunSteps(y, [a]) == Next(RunSteps(y, []), a);
  }

  lemma MergeOne(e: Elem)
    requires e.origin == HeadId && e.id != HeadId
    ensures Merge([Head], [Head, e]) == [Head, e]
  {
    var s, t := [Head], [Head, e];
    FindAt(s, 0);
    assert Find(t, HeadId) == 0;
    assert Bury(s, t) == s;
    assert !Has(s, e.id);
    assert Anchored(t, 1) == e;
    assert MergeUpTo(s, t, 1) == s;
    assert Place(s, e) == [Head, e];
  }

  lemma SecondOfId(d: Doc, k: nat, e: Elem, x: nat)
    requires k <= |d| && x < |d| && d[x].id == e.id
    ensures !Distinct(InsertAt(d, k, e))
  {
    var r := InsertAt(d, k, e);
    if x < k {
      assert r[x].id == r[k].id;
    } else {
      assert r[x + 1] == d[x] && r[k].id == r[x + 1].id;
    }
  }

  /** Every run of a set of replicas keeps the structural invariant if and only if no two of their names can
      be confused. */
  lemma {:induction false} RunsWellFormedIff(names: set<bytes>)
    ensures (forall steps :: AllWellFormed(RunSteps(Start(names), steps))) <==> Nameable(names)
  {
    if Nameable(names) {
      forall steps ensures AllWellFormed(RunSteps(Start(names), steps)) {
        EveryRunWellFormed(names, steps);
      }
    } else {
      var n, m :| n in names && m in names && n != m && Confusable(n, m);
      MintedAlike(1, n, m);
      var v, w :| MintId(1, n, v) == MintId(1, m, w);
      ConfusedRun(names, n, m, v, w);
    }
  }

  // ---------- independent histories ----------

  ghost predicate OwnNodes(y: System) {
    forall name, i :: name in y && 1 <= i < |y[name].doc| ==> y[name].doc[i].author == name
  }

  lemma OwnAfterInsert(y: System, name: bytes, after: bytes, value: bytes)
    requires Inv(y) && Nameable(y.Keys) && OwnNodes(y) && name in y
    ensures var d := LocalInsert(y[name], name, after, value).doc;
            forall i :: 1 <= i < |d| ==> d[i].author == name
  {
    var n := LocalInsertIsPlace(y, name, after, value);
    InvGivesMergeable(y, name, name);
    PlacedNodes(y[name].doc, n);
  }

  lemma LocalStepOwnNodes(y: System, step: Step)
    requires Inv(y) && Nameable(y.Keys) && OwnNodes(y) && step.name in y && !step.MergeFrom?
    ensures OwnNodes(Next(y, step))
  {
    var name := step.name;
    if step.Insert? {
      OwnAfterInsert(y, name, step.after, step.value);
    } else {
      EraseFind(y[name].doc, step.id, step.id);
    }
    OthersOwnNodes(y, name, Next(y, step));
  }

  lemma OthersOwnNodes(y: System, name: bytes, z: System)
    requires OwnNodes(y) && name in y && name in z && z == y[name := z[name]]
    requires forall i :: 1 <= i < |z[name].doc| ==> z[name].doc[i].author == name
    ensures OwnNodes(z)
  {
  }

  lemma {:induction false} LocalRunOwnNodes(names: set<bytes>, steps: seq<Step>)
    requires Nameable(names) && forall i :: 0 <= i < |steps| ==> !steps[i].MergeFrom?
    ensures OwnNodes(RunSteps(Start(names), steps))
  {
    if steps != [] {
      var before := steps[..|steps| - 1];
      EveryRunWellFormed(names, before);
      LocalRunOwnNodes(names, before);
      var y := RunSteps(Start(names), before);
      if steps[|steps| - 1].name in y {
        LocalStepOwnNodes(y, steps[|steps| - 1]);
      }
    }
  }

  lemma {:induction false} ExchangeSteps(y: System, steps: seq<Step>, a: bytes, b: bytes, z: System)
    requires z == RunSteps(y, steps) && a in z && b in z && a != b
    ensures var m := Merge(z[a].doc, z[b].doc);
            var w := RunSteps(y, steps + [MergeFrom(a, b), MergeFrom(b, a)]);
            a in w && b in w && w[a].doc == m && w[b].doc == Merge(z[b].doc, m)
  {
    var two := steps + [MergeFrom(a, b), MergeFrom(b, a)];
    var one := steps + [MergeFrom(a, b)];
    assert two[..|two| - 1] == one;
    assert one[..|one| - 1] == steps;
    assert RunSteps(y, one) == Next(z, MergeFrom(a, b));
  }

  /** Two replicas that edit on their own for as long as they like, in any way, and then exchange one
      after the other, end with the same nodes, tombstones and text. */
  lemma {:induction false} IndependentEditorsAgree(names: set<bytes>, steps: seq<Step>, a: bytes, b: bytes)
    requires Nameable(names) && a in names && b in names && a != b
    requires forall i :: 0 <= i < |steps| ==> !steps[i].MergeFrom?
    ensures var y := RunSteps(Start(names), steps + [MergeFrom(a, b), MergeFrom(b, a)]);
            a in y && b in y && Shape(y[a].doc) == Shape(y[b].doc) && Text(y[a].doc) == Text(y[b].doc)
  {
    var y := RunSteps(Start(names), steps);
    EveryRunWellFormed(names, steps);
    LocalRunOwnNodes(names, steps);
    OwnersDisjoint(y, a, b);
    ExchangeSteps(Start(names), steps, a, b, y);
    ExchangedText(y[a].doc, y[b].doc);
  }

  lemma ExchangedText(s: Doc, t: Doc)
    requires WellFormed(s) && WellFormed(t) && Disjoint(s, t)
    ensures Shape(Merge(t, Merge(s, t))) == Shape(Merge(s, t)) && Text(Merge(t, Merge(s, t))) == Text(Merge(s, t))
  {
    SequentialExchange(s, t);
    MergeNonEmpty(s, t);
    MergeNonEmpty(t, Merge(s, t));
    SameShapeSameText(Merge(s, t), Merge(t, Merge(s, t)));
  }

  lemma MergeNonEmpty(s: Doc, t: Doc)
    requires |s| > 0
    ensures |Merge(s, t)| > 0
  {
    if |t| > 0 {
      MergeUpToNonEmpty(s, t, |t|);
    }
  }

  lemma {:induction false} MergeUpToNonEmpty(s: Doc, t: Doc, j: nat)
    requires |s| > 0 && 1 <= j <= |t|
    ensures |MergeUpTo(s, t, j)| > 0
  {
    if j > 1 {
      MergeUpToNonEmpty(s, t, j - 1);
    }
  }

  lemma OwnersDisjoint(y: System, a: bytes, b: bytes)
    requires Inv(y) && OwnNodes(y) && Nameable(y.Keys) && a in y && b in y && a != b
    ensures Disjoint(y[a].doc, y[b].doc)
  {
    forall i, j | 1 <= i < |y[a].doc| && 1 <= j < |y[b].doc|
      ensures y[a].doc[i].id != y[b].doc[j].id && !SameKey(y[a].doc[i], y[b].doc[j])
    {
      var e, f := y[a].doc[i], y[b].doc[j];
      assert Minted(y, e) && Minted(y, f);
      if e.id == f.id {
        MintIdInjective(e.ts, a, e.value, f.ts, b, f.value);
        assert false;
      }
    }
  }

  // ---------- replicas that append ----------

  // The step is local, and an insert goes behind the last node.
  predicate AppendStep(y: System, step: Step) {
    match step
    case Insert(name, after, _) => name in y && |y[name].doc| > 0 ==> Anchor(y[name].doc, after) == |y[name].doc| - 1
    case Delete(_, _) => true
    case MergeFrom(_, _) => false
  }

  predicate AppendRun(y: System, steps: seq<Step>) {
    steps == [] || (AppendRun(y, steps[..|steps| - 1]) && AppendStep(RunSteps(y, steps[..|steps| - 1]), steps[|steps| - 1]))
  }

  // Each node hangs off the one before it.
  ghost predicate Chained(d: Doc) {
    forall i, j :: 0 <= i && j == i + 1 && j < |d| ==> d[j].origin == d[i].id
  }

  ghost predicate AllChained(y: System) {
    forall name :: name in y ==> |y[name].doc| > 0 && Chained(y[name].doc)
  }

  lemma AppendChains(y: System, step: Step)
    requires AllChained(y) && AppendStep(y, step)
    ensures AllChained(Next(y, step))
  {
    if step.name in y {
      var d := y[step.name].doc;
      match step
      case Insert(name, after, value) => AppendedChained(d, after, LocalInsert(y[name], name, after, value).doc);
      case Delete(name, id) => ErasedChained(d, id);
    }
  }

  lemma AppendedChained(d: Doc, after: bytes, r: Doc)
    requires Chained(d) && |d| > 0 && Anchor(d, after) == |d| - 1
    requires |r| == |d| + 1 && exists n :: r == Attach(d, after, n)
    ensures Chained(r)
  {
    var n :| r == Attach(d, after, n);
    assert forall i :: 0 <= i < |d| ==> r[i] == d[i];
  }

  lemma ErasedChained(d: Doc, id: bytes)
    requires Chained(d) && |d| > 0
    ensures |Erase(d, id)| > 0 && Chained(Erase(d, id))
  {
    EraseFind(d, id, id);
  }

  lemma {:induction false} AppendRunChains(names: set<bytes>, steps: seq<Step>)
    requires AppendRun(Start(names), steps)
    ensures AllChained(RunSteps(Start(names), steps)) && forall i :: 0 <= i < |steps| ==> !steps[i].MergeFrom?
  {
    if steps != [] {
      var before := steps[..|steps| - 1];
      AppendRunChains(names, before);
      AppendChains(RunSteps(Start(names), before), steps[|steps| - 1]);
      assert forall i :: 0 <= i < |before| ==> before[i] == steps[i];
    }
  }

  lemma ChainedTop(d: Doc)
    requires WellFormed(d) && Chained(d)
    ensures forall i :: 2 <= i < |d| ==> d[i].origin != HeadId
  {
    forall i | 2 <= i < |d| ensures d[i].origin != HeadId {
      assert d[i].origin == d[i - 1].id && d[i - 1].id != d[0].id;
    }
  }

  /** Replicas that start empty, append runs of any length and delete anything: two of them that merge, from
      each other's snapshots or one after the other, in either order, end with the same nodes, tombstones and
      text. */
  lemma {:induction false} AppendersExchange(names: set<bytes>, steps: seq<Step>, a: bytes, b: bytes)
    requires Nameable(names) && a in names && b in names && a != b && AppendRun(Start(names), steps)
    ensures var y := RunSteps(Start(names), steps);
            a in y && b in y && var s, t := y[a].doc, y[b].doc;
            && Shape(Merge(s, t)) == Shape(Merge(t, s)) == Shape(Merge(t, Merge(s, t))) == Shape(Merge(s, Merge(t, s)))
            && Text(Merge(s, t)) == Text(Merge(t, s)) == Text(Merge(t, Merge(s, t))) == Text(Merge(s, Merge(t, s)))
  {
    var y := RunSteps(Start(names), steps);
    EveryRunWellFormed(names, steps);
    AppendRunChains(names, steps);
    LocalRunOwnNodes(names, steps);
    OwnersDisjoint(y, a, b);
    OwnersDisjoint(y, b, a);
    ChainedTop(y[a].doc);
    ChainedTop(y[b].doc);
    AppendedText(y[a].doc, y[b].doc);
  }

  lemma AppendedText(s: Doc, t: Doc)
    requires WellFormed(s) && WellFormed(t) && Disjoint(s, t) && Disjoint(t, s)
    requires (forall i :: 2 <= i < |s| ==> s[i].origin != HeadId) && (forall j :: 2 <= j < |t| ==> t[j].origin != HeadId)
    ensures Shape(Merge(s, t)) == Shape(Merge(t, s)) == Shape(Merge(t, Merge(s, t))) == Shape(Merge(s, Merge(t, s)))
    ensures Text(Merge(s, t)) == Text(Merge(t, s)) == Text(Merge(t, Merge(s, t))) == Text(Merge(s, Merge(t, s)))
  {
    AppendersAgree(s, t);
    ExchangedText(s, t);
    ExchangedText(t, s);
    MergeNonEmpty(s, t);
    MergeNonEmpty(t, s);
    SameShapeSameText(Merge(s, t), Merge(t, s));
  }

  // ---------- replicas that have met before ----------

  lemma MintedSameNodes(y: System, a: bytes, b: bytes)
    requires Inv(y) && Nameable(y.Keys) && a in y && b in y
    ensures SameNodes(y[a].doc, y[b].doc)
  {
    var s, t := y[a].doc, y[b].doc;
    forall i, j | 1 <= i < |s| && 1 <= j < |t| && s[i].id == t[j].id ensures SameMint(s[i], t[j]) {
      assert Minted(y, s[i]) && Minted(y, t[j]);
      MintIdInjective(s[i].ts, s[i].author, s[i].value, t[j].ts, t[j].author, t[j].value);
    }
  }

  /** After any run, whatever the replicas have exchanged before: two of them that merge one after the other
      agree if and only if the first merge kept the second's order and everything new to the second fits. */
  lemma {:induction false} RunExchangeIff(names: set<bytes>, steps: seq<Step>, a: bytes, b: bytes)
    requires Nameable(names) && a in names && b in names && a != b
    ensures var y := RunSteps(Start(names), steps);
            var z := RunSteps(Start(names), steps + [MergeFrom(a, b), MergeFrom(b, a)]);
            a in z && b in z && b in y
            && (Shape(z[a].doc) == Shape(z[b].doc) <==> Keeps(y[b].doc, z[a].doc) && FitsBefore(y[b].doc, z[a].doc, |z[a].doc|))
  {
    var y := RunSteps(Start(names), steps);
    EveryRunWellFormed(names, steps);
    InvGivesMergeable(y, a, b);
    MintedSameNodes(y, a, b);
    ExchangeSteps(Start(names), steps, a, b, y);
    ExchangeIff(y[a].doc, y[b].doc);
  }

  /** Likewise for two that merge each other's snapshots. */
  lemma {:induction false} RunSnapshotIff(names: set<bytes>, steps: seq<Step>, a: bytes, b: bytes)
    requires Nameable(names) && a in names && b in names
    ensures var y := RunSteps(Start(names), steps);
            a in y && b in y && var s, t := y[a].doc, y[b].doc; var m := Merge(s, t);
            Shape(m) == Shape(Merge(t, s)) <==> Keeps(t, m) && AllLand(t, s, m)
  {
    var y := RunSteps(Start(names), steps);
    EveryRunWellFormed(names, steps);
    InvGivesMergeable(y, a, b);
    InvGivesMergeable(y, b, a);
    MintedSameNodes(y, a, b);
    MintedSameNodes(y, b, a);
    SharedSnapshotIff(y[a].doc, y[b].doc);
  }

  // ---------- one writer, one reader ----------

  lemma {:induction false} OthersIdle(names: set<bytes>, steps: seq<Step>, a: bytes, b: bytes)
    requires a in names && a != b && forall i :: 0 <= i < |steps| ==> steps[i].name == b
    ensures a in RunSteps(Start(names), steps) && RunSteps(Start(names), steps)[a] == Empty
  {
    if steps != [] {
      OthersIdle(names, steps[..|steps| - 1], a, b);
    }
  }

  // The reader merges, the writer inserts, the reader merges again.
  lemma {:induction false} ReadWriteRead(y0: System, steps: seq<Step>, a: bytes, b: bytes, after: bytes, value: bytes, y: System)
    requires y == RunSteps(y0, steps) && a in y && b in y && a != b && |y[b].doc| > 0
    ensures var z := RunSteps(y0, steps + [MergeFrom(a, b), Insert(b, after, value), MergeFrom(a, b)]);
            && a in z && b in z && z[b] == LocalInsert(y[b], b, after, value)
            && z[a].doc == Merge(Merge(y[a].doc, y[b].doc), z[b].doc)
  {
    var m, w := MergeFrom(a, b), Insert(b, after, value);
    var three, two, one := steps + [m, w, m], steps + [m, w], steps + [m];
    assert three[..|three| - 1] == two && two[..|two| - 1] == one && one[..|one| - 1] == steps;
    assert RunSteps(y0, one) == Next(y, m);
    assert RunSteps(y0, two) == Next(Next(y, m), w);
  }

  /** A reader that follows one writer, after any edits of the writer, keeps up with its next insert if and
      only if the new node, the one with the writer's latest clock, comes last. */
  lemma {:induction false} LoneReaderIff(names: set<bytes>, steps: seq<Step>, a: bytes, b: bytes, after: bytes, value: bytes)
    requires Nameable(names) && a in names && b in names && a != b
    requires forall i :: 0 <= i < |steps| ==> steps[i].name == b && !steps[i].MergeFrom?
    ensures var z := RunSteps(Start(names), steps + [MergeFrom(a, b), Insert(b, after, value), MergeFrom(a, b)]);
            && a in z && b in z && |z[b].doc| > 1
            && (Shape(z[a].doc) == Shape(z[b].doc) <==> z[b].doc[|z[b].doc| - 1].ts == z[b].clock)
  {
    var y := RunSteps(Start(names), steps);
    EveryRunWellFormed(names, steps);
    LocalRunOwnNodes(names, steps);
    OthersIdle(names, steps, a, b);
    ReadWriteRead(Start(names), steps, a, b, after, value, y);
    var n := LocalInsertIsPlace(y, b, after, value);
    var t := y[b].doc;
    var k := InsertPos(t, Find(t, n.origin), n);
    LatestSortsLast(y, b, n);
    ReaderKeepsUpIff(t, k, n, Place(t, n));
    LastIsLatest(t, k, n, Place(t, n));
  }

  lemma LatestSortsLast(y: System, b: bytes, n: Elem)
    requires AllMinted(y) && OwnNodes(y) && b in y && n.ts == y[b].clock + 1
    ensures forall i :: 1 <= i < |y[b].doc| ==> Before(y[b].doc[i], n) && y[b].doc[i].ts < n.ts
  {
    forall i | 1 <= i < |y[b].doc| ensures y[b].doc[i].ts < n.ts {
      assert Minted(y, y[b].doc[i]);
    }
  }

  lemma LastIsLatest(t: Doc, k: nat, n: Elem, t1: Doc)
    requires 1 <= k <= |t| && t1 == InsertAt(t, k, n) && forall i :: 1 <= i < |t| ==> t[i].ts < n.ts
    ensures k == |t| <==> t1[|t1| - 1].ts == n.ts
  {
    if k < |t| {
      assert t1[|t1| - 1] == t[|t| - 1];
    }
  }

  // Two inserts behind the head, in the order they were made.
  lemma TwoBehindHead(b: bytes, x: bytes, w: bytes)
    ensures var r := LocalInsert(LocalInsert(Empty, b, HeadId, x), b, HeadId, w);
            && r.clock == 2
            && r.doc == [Head, Elem(MintId(1, b, x), x, 1, b, false, HeadId), Elem(MintId(2, b, w), w, 2, b, false, HeadId)]
  {
    var e := Elem(MintId(1, b, x), x, 1, b, false, HeadId);
    FindAt([Head], 0);
    assert Attach([Head], HeadId, e) == [Head, e];
    var d, f := [Head, e], Elem(MintId(2, b, w), w, 2, b, false, HeadId);
    assert Anchor(d, HeadId) == 0;
    assert NextSibling(d, HeadId, 1, f) == NextSibling(d, HeadId, 2, f) == 2;
    assert InsertAt(d, 2, f) == [Head, e, f];
  }

  // A third insert, behind the first of them.
  lemma BetweenTwo(r: Replica, b: bytes, x: bytes, w: bytes, v: bytes)
    requires r.clock == 2
    requires r.doc == [Head, Elem(MintId(1, b, x), x, 1, b, false, HeadId), Elem(MintId(2, b, w), w, 2, b, false, HeadId)]
    ensures var z := LocalInsert(r, b, MintId(1, b, x), v); |z.doc| == 4 && z.doc[3].ts == 2 && z.clock == 3
  {
    var d, id := r.doc, MintId(1, b, x);
    MintIsNotHead(1, b, x);
    assert Find(d, id) == 1;
    assert d[2].origin != id;
    assert forall n :: InsertPos(d, 1, n) == 2;
  }

  lemma TwoSteps(y: System, a: Step, b: Step)
    ensures RunSteps(y, [a, b]) == Next(Next(y, a), b)
  {
    assert [a, b][..1] == [a] && [a][..0] == [];
    assert RunSteps(y, [a]) == Next(RunSteps(y, []), a);
  }

  /** Two nodes behind the head, a reader that merges them, and a third node between the two: the reader shows
      another order, and merging back and forth again changes neither list. */
  lemma {:induction false} ReaderLeftBehind(names: set<bytes>, a: bytes, b: bytes, x: bytes, w: bytes, v: bytes)
    requires Nameable(names) && a in names && b in names && a != b
    ensures var steps := [Insert(b, HeadId, x), Insert(b, HeadId, w)] + [MergeFrom(a, b), Insert(b, MintId(1, b, x), v), MergeFrom(a, b)];
            var z := RunSteps(Start(names), steps);
            && a in z && b in z && Shape(z[a].doc) != Shape(z[b].doc)
            && Merge(z[b].doc, z[a].doc) == z[b].doc && Merge(z[a].doc, z[b].doc) == z[a].doc
  {
    var first := [Insert(b, HeadId, x), Insert(b, HeadId, w)];
    var id := MintId(1, b, x);
    LoneReaderIff(names, first, a, b, id, v);
    ReaderStuck(names, first, a, b, id, v);
    InsertedBetween(names, a, b, x, w, v);
  }

  lemma {:induction false} InsertedBetween(names: set<bytes>, a: bytes, b: bytes, x: bytes, w: bytes, v: bytes)
    requires Nameable(names) && a in names && b in names && a != b
    ensures var first := [Insert(b, HeadId, x), Insert(b, HeadId, w)];
            var z := RunSteps(Start(names), first + [MergeFrom(a, b), Insert(b, MintId(1, b, x), v), MergeFrom(a, b)]);
            b in z && |z[b].doc| == 4 && z[b].doc[3].ts != z[b].clock
  {
    var first := [Insert(b, HeadId, x), Insert(b, HeadId, w)];
    var y := RunSteps(Start(names), first);
    TwoSteps(Start(names), first[0], first[1]);
    TwoBehindHead(b, x, w);
    BetweenTwo(y[b], b, x, w, v);
    OthersIdle(names, first, a, b);
    ReadWriteRead(Start(names), first, a, b, MintId(1, b, x), v, y);
  }

  /** However the reader of one writer has read an insert, merging back and forth changes neither list. */
  lemma {:induction false} ReaderStuck(names: set<bytes>, steps: seq<Step>, a: bytes, b: bytes, after: bytes, value: bytes)
    requires Nameable(names) && a in names && b in names && a != b
    requires forall i :: 0 <= i < |steps| ==> steps[i].name == b && !steps[i].MergeFrom?
    ensures var z := RunSteps(Start(names), steps + [MergeFrom(a, b), Insert(b, after, value), MergeFrom(a, b)]);
            && a in z && b in z
            && Merge(z[b].doc, z[a].doc) == z[b].doc && Merge(z[a].doc, z[b].doc) == z[a].doc
  {
    var y := RunSteps(Start(names), steps);
    EveryRunWellFormed(names, steps);
    OthersIdle(names, steps, a, b);
    ReadWriteRead(Start(names), steps, a, b, after, value, y);
    var n := LocalInsertIsPlace(y, b, after, value);
    var t := y[b].doc;
    var s := Merge([Head], t);
    ReaderIsChain(t, [Head], s);
    GrownAhead(s, t, InsertPos(t, Find(t, n.origin), n), n, Place(t, n));
    AheadCovers(s, InsertPos(t, Find(t, n.origin), n), n, Place(t, n));
    ReadThenWritten(names, steps, a, b, after, value, y);
    MergeBackIdle(s, Place(t, n));
  }

  lemma {:induction false} ReadThenWritten(names: set<bytes>, steps: seq<Step>, a: bytes, b: bytes, after: bytes, value: bytes, y: System)
    requires Nameable(names) && a in names && b in names && a != b && y == RunSteps(Start(names), steps)
    requires a in y && b in y && y[a] == Empty && |y[b].doc| > 0
    ensures var s, t := Merge([Head], y[b].doc), LocalInsert(y[b], b, after, value).doc;
            WellFormed(s) && WellFormed(t) && Compatible(s, t) && KeysApart(t)
  {
    var m, w := MergeFrom(a, b), Insert(b, after, value);
    var two, one := steps + [m, w], steps + [m];
    assert two[..|two| - 1] == one && one[..|one| - 1] == steps;
    assert RunSteps(Start(names), one) == Next(y, m);
    var z := RunSteps(Start(names), two);
    assert z == Next(Next(y, m), w);
    EveryRunWellFormed(names, two);
    InvGivesMergeable(z, a, b);
  }
}
