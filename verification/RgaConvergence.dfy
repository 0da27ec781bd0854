/** Order independence of insertOrdered: which sets of inserts end in the same list whatever the
    (causal) delivery order, decided exactly. */
module RgaConvergence {
  import opened Bytes
  import opened RgaModel

  datatype Op = Ins(elem: Elem) | Del(target: bytes)

  function Apply(s: Doc, op: Op): Doc {
    match op
    case Ins(e) => Place(s, e)
    case Del(id) => Erase(s, id)
  }

  function Run(s: Doc, ops: seq<Op>): Doc {
    if ops == [] then s else Apply(Run(s, ops[..|ops| - 1]), ops[|ops| - 1])
  }

  // ---------- operation sets and delivery orders ----------

  /** A set of live inserts with unused sentinel ID, unique IDs and unique (Timestamp, Author) keys. */
  ghost predicate Inserts(o: set<Elem>) {
    && (forall e :: e in o ==> e.id != HeadId && !e.deleted)
    && (forall e, f :: e in o && f in o && e != f ==> e.id != f.id && !SameKey(e, f))
  }

  ghost predicate Known(ops: seq<Op>, n: nat, id: bytes)
    requires n <= |ops|
  {
    exists j :: 0 <= j < n && ops[j].Ins? && ops[j].elem.id == id
  }

  // The i-th delivery is one of the operations, and what it depends on has been delivered.
  ghost predicate Ready(o: set<Elem>, d: set<bytes>, ops: seq<Op>, i: nat)
    requires i < |ops|
  {
    match ops[i]
    case Ins(e) => e in o && (e.origin == HeadId || Known(ops, i, e.origin))
    case Del(id) => id in d && Known(ops, i, id)
  }

  /** ops delivers each insert of o once and each delete of d at least once, origins before children
      and inserts before their deletes. */
  ghost predicate Delivery(o: set<Elem>, d: set<bytes>, ops: seq<Op>) {
    && (forall i, j :: 0 <= i < j < |ops| && ops[i].Ins? && ops[j].Ins? ==> ops[i].elem.id != ops[j].elem.id)
    && (forall i :: 0 <= i < |ops| ==> Ready(o, d, ops, i))
    && (forall e :: e in o ==> exists i :: 0 <= i < |ops| && ops[i] == Ins(e))
    && (forall id :: id in d ==> exists i :: 0 <= i < |ops| && ops[i] == Del(id))
  }

  // ---------- the canonical list of a set of nodes ----------

  // Subtrees do not interleave: whatever lies between a node and its origin hangs below that origin.
  ghost predicate NonCrossing(s: Doc) {
    forall j, i :: 1 <= j < i < |s| && Par(s, i) < j ==> Par(s, i) <= Par(s, j)
  }

  ghost predicate Canonical(s: Doc) {
    WellFormed(s) && NonCrossing(s)
  }

  /** Two canonical lists over the same nodes are the same list. */
  lemma CanonicalUnique(s: Doc, t: Doc)
    requires Canonical(s) && Canonical(t) && s[0] == t[0]
    requires forall i :: 0 <= i < |s| ==> s[i] in t
    requires forall i :: 0 <= i < |t| ==> t[i] in s
    ensures s == t
  {
    AgreeUpTo(s, t, if |s| <= |t| then |s| else |t|);
    Exhausted(s, t);
    Exhausted(t, s);
  }

  lemma {:induction false} AgreeUpTo(s: Doc, t: Doc, k: nat)
    requires Canonical(s) && Canonical(t) && s[0] == t[0]
    requires forall i :: 0 <= i < |s| ==> s[i] in t
    requires forall i :: 0 <= i < |t| ==> t[i] in s
    requires k <= |s| && k <= |t|
    ensures Agree(s, t, k)
  {
    if k > 1 {
      AgreeUpTo(s, t, k - 1);
      SameNext(s, t, k - 1);
    }
  }

  // A list without repetition that starts with all of t holds nothing else.
  lemma Exhausted(s: Doc, t: Doc)
    requires Distinct(s) && (|t| < |s| ==> s[|t|] in t)
    requires Agree(s, t, if |s| <= |t| then |s| else |t|)
    ensures |s| <= |t|
  {
  }

  ghost predicate Agree(s: Doc, t: Doc, k: nat) {
    k <= |s| && k <= |t| && forall x :: 0 <= x < k ==> s[x] == t[x]
  }

  // What sits at k, ahead of a node whose origin is earlier still, hangs below that origin.
  lemma BelowOrigin(s: Doc, k: nat, j: nat)
    requires Canonical(s) && 1 <= k < j < |s| && Par(s, j) < k
    ensures Par(s, j) <= Par(s, k) < k
    ensures Par(s, j) == Par(s, k) ==> Before(s[k], s[j])
  {
    assert Par(s, k) < k;
  }

  // A node of t that is not among the first k of the common prefix sits at k or later in s, and its
  // origin is in the prefix, at the same place in both lists.
  lemma Candidate(s: Doc, t: Doc, k: nat) returns (j: nat)
    requires Canonical(s) && Canonical(t)
    requires 1 <= k < |s| && k < |t| && Agree(s, t, k) && t[k] in s
    ensures k <= j < |s| && s[j] == t[k] && Par(s, j) == Par(t, k) < k
  {
    j :| 0 <= j < |s| && s[j] == t[k];
    assert Par(t, k) < k;
    PrefixFind(s, t, k, t[k].origin);
  }

  // At the first difference the two candidates would each have to sit below the other's origin, so
  // they are siblings, and sorted both ways round.
  lemma SameNext(s: Doc, t: Doc, k: nat)
    requires Canonical(s) && Canonical(t)
    requires 1 <= k < |s| && k < |t| && Agree(s, t, k)
    requires s[k] in t && t[k] in s
    ensures s[k] == t[k]
  {
    var j := Candidate(s, t, k);
    var i := Candidate(t, s, k);
    BeforeAsymmetric(s[k], t[k]);
    if k < j && k < i {
      BelowOrigin(s, k, j);
      BelowOrigin(t, k, i);
      assert false;
    }
  }

  lemma PrefixFind(s: Doc, t: Doc, k: nat, id: bytes)
    requires Agree(s, t, k)
    ensures Find(s, id) < k || Find(t, id) < k ==> Find(s, id) == Find(t, id)
  {
  }

  // ---------- which operation sets converge ----------

  ghost predicate Branching(o: set<Elem>, id: bytes) {
    exists a, b :: a in o && b in o && a != b && a.origin == id && b.origin == id
  }

  // A walk up the causal tree: every node is followed by its origin.
  ghost predicate Climb(o: set<Elem>, path: seq<Elem>) {
    && |path| > 0
    && (forall i :: 0 <= i < |path| ==> path[i] in o)
    && (forall i :: 0 <= i < |path| - 1 ==> path[i].origin == path[i + 1].id)
  }

  /** A node with several children sits on the right edge of the causal tree: neither it nor any of
      its ancestors has a later sibling. */
  ghost predicate RightEdge(o: set<Elem>) {
    forall path: seq<Elem>, w: Elem
      | Climb(o, path) && Branching(o, path[0].id) && w in o && w.origin == path[|path| - 1].origin
      :: !Before(path[|path| - 1], w)
  }

  function Live(e: Elem): Elem {
    e.(deleted := false)
  }

  ghost predicate DrawnFrom(o: set<Elem>, s: Doc) {
    forall i :: 1 <= i < |s| ==> Live(s[i]) in o
  }

  // ---------- sufficiency ----------

  lemma InsertKeepsNonCrossing(s: Doc, a: nat, k: nat, n: Elem)
    requires Distinct(s) && OriginsPrecede(s) && NonCrossing(s) && !Has(s, n.id)
    requires a < k <= |s| && n.origin == s[a].id
    requires forall j :: a < j < k ==> a <= Par(s, j)
    requires forall i :: k <= i < |s| && Par(s, i) < k ==> Par(s, i) <= a
    ensures NonCrossing(InsertAt(s, k, n))
  {
    var r := InsertAt(s, k, n);
    forall j, i | 1 <= j < i < |r| && Par(r, i) < j
      ensures Par(r, i) <= Par(r, j)
    {
      ShiftedPar(s, a, k, n, i);
      ShiftedPar(s, a, k, n, j);
    }
  }

  lemma ShiftedPar(s: Doc, a: nat, k: nat, n: Elem, i: nat)
    requires Distinct(s) && OriginsPrecede(s) && !Has(s, n.id)
    requires a < k <= |s| && n.origin == s[a].id && 1 <= i <= |s|
    ensures var r := InsertAt(s, k, n);
            Par(r, i) == if i == k then a
                         else var p := Par(s, if i < k then i else i - 1); if p < k then p else p + 1
  {
    var r := InsertAt(s, k, n);
    FindInserted(s, k, n, r[i].origin);
    if i == k {
      FindAt(s, a);
    } else {
      var i' := if i < k then i else i - 1;
      assert r[i] == s[i'];
      assert Par(s, i') < i';
    }
  }

  // Climbing from a to the level of j: some ancestor of a is an earlier sibling of j.
  lemma ClimbTo(o: set<Elem>, s: Doc, a: nat, j: nat) returns (path: seq<Elem>)
    requires Canonical(s) && DrawnFrom(o, s)
    requires 1 <= a < j < |s| && Par(s, j) < a
    ensures Climb(o, path) && path[0] == Live(s[a])
    ensures path[|path| - 1].origin == s[j].origin && Before(path[|path| - 1], s[j])
    decreases a
  {
    BelowOrigin(s, a, j);
    if Par(s, a) == Par(s, j) {
      path := [Live(s[a])];
    } else {
      var up := ClimbTo(o, s, Par(s, a), j);
      path := [Live(s[a])] + up;
    }
  }

  // Nothing follows the subtree of a branching node.
  lemma NothingAfterSubtree(o: set<Elem>, s: Doc, a: nat, j: nat)
    requires Canonical(s) && DrawnFrom(o, s) && RightEdge(o)
    requires a < j < |s| && (a == 0 || Branching(o, s[a].id))
    ensures a <= Par(s, j)
  {
    if Par(s, j) < a {
      var path := ClimbTo(o, s, a, j);
      var w := Live(s[j]);
      assert false;
    }
  }

  // Splicing at the end of the list happens only below the head or a branching node.
  lemma SpliceAtEnd(o: set<Elem>, s: Doc, a: nat, n: Elem)
    requires RightEdge(o) && n in o && Canonical(s) && DrawnFrom(o, s) && Fresh(s, n)
    requires a + 1 < |s| && s[a + 1].origin == s[a].id == n.origin
    ensures forall j :: a < j < |s| ==> a <= Par(s, j)
  {
    var c := Live(s[a + 1]);
    assert c in o && c != n && c.origin == n.origin;
    assert Branching(o, s[a].id);
    forall j | a < j < |s|
      ensures a <= Par(s, j)
    {
      NothingAfterSubtree(o, s, a, j);
    }
  }

  // The splice point chosen by insertOrdered closes the subtree it belongs to.
  lemma SplicePoint(o: set<Elem>, s: Doc, a: nat, n: Elem)
    requires RightEdge(o) && n in o && Canonical(s) && DrawnFrom(o, s) && Fresh(s, n)
    requires a < |s| && n.origin == s[a].id
    ensures forall j :: a < j < InsertPos(s, a, n) ==> a <= Par(s, j)
    ensures forall i :: InsertPos(s, a, n) <= i < |s| && Par(s, i) < InsertPos(s, a, n) ==> Par(s, i) <= a
  {
    var k := InsertPos(s, a, n);
    FindAt(s, a);
    if a + 1 < |s| && s[a + 1].origin == s[a].id {
      if k < |s| {
        BeforeSibling(s, a, k);
      } else {
        SpliceAtEnd(o, s, a, n);
      }
    }
  }

  lemma BeforeSibling(s: Doc, a: nat, k: nat)
    requires NonCrossing(s) && a < k < |s| && Par(s, k) == a
    ensures forall j :: a < j < k ==> a <= Par(s, j)
    ensures forall i :: k <= i < |s| && Par(s, i) < k ==> Par(s, i) <= a
  {
  }

  lemma PlaceCanonical(o: set<Elem>, s: Doc, n: Elem)
    requires Inserts(o) && RightEdge(o) && n in o
    requires Canonical(s) && DrawnFrom(o, s) && Fresh(s, n) && Has(s, n.origin)
    ensures Canonical(Place(s, n))
  {
    PlaceWellFormed(s, n);
    var a := Find(s, n.origin);
    SplicePoint(o, s, a, n);
    InsertKeepsNonCrossing(s, a, InsertPos(s, a, n), n);
  }

  // ---------- whole deliveries ----------

  ghost predicate Erased(ops: seq<Op>, n: nat, id: bytes)
    requires n <= |ops|
  {
    exists j :: 0 <= j < n && ops[j] == Del(id)
  }

  // s holds exactly what the first n deliveries brought: the inserts among them, tombstoned by the
  // deletes among them.
  ghost predicate Holds(o: set<Elem>, ops: seq<Op>, n: nat, s: Doc)
    requires n <= |ops|
  {
    && |s| > 0 && s[0] == Head && DrawnFrom(o, s)
    && (forall i :: 1 <= i < |s| ==> Known(ops, n, s[i].id) && (s[i].deleted <==> Erased(ops, n, s[i].id)))
    && (forall j :: 0 <= j < n && ops[j].Ins? ==> Has(s, ops[j].elem.id))
  }

  lemma HoldsAfterInsert(o: set<Elem>, ops: seq<Op>, n: nat, s: Doc, k: nat)
    requires n < |ops| && ops[n].Ins? && ops[n].elem in o && !ops[n].elem.deleted
    requires Holds(o, ops, n, s) && Distinct(s) && !Has(s, ops[n].elem.id) && 1 <= k <= |s|
    requires !Erased(ops, n + 1, ops[n].elem.id)
    ensures Holds(o, ops, n + 1, InsertAt(s, k, ops[n].elem))
  {
    var e := ops[n].elem;
    var r := InsertAt(s, k, e);
    forall i | 1 <= i < |r|
      ensures Live(r[i]) in o && Known(ops, n + 1, r[i].id) && (r[i].deleted <==> Erased(ops, n + 1, r[i].id))
    {
      if i != k {
        var i' := if i < k then i else i - 1;
        assert r[i] == s[i'] && Known(ops, n, s[i'].id);
      }
    }
    forall j | 0 <= j < n + 1 && ops[j].Ins?
      ensures Has(r, ops[j].elem.id)
    {
      FindInserted(s, k, e, ops[j].elem.id);
    }
  }

  lemma FreshDelivery(o: set<Elem>, d: set<bytes>, ops: seq<Op>, n: nat, s: Doc)
    requires Inserts(o) && Delivery(o, d, ops) && n < |ops| && ops[n].Ins?
    requires Canonical(s) && Holds(o, ops, n, s)
    ensures Fresh(s, ops[n].elem) && Has(s, ops[n].elem.origin) && ops[n].elem in o
    ensures !Erased(ops, n + 1, ops[n].elem.id)
  {
    var e := ops[n].elem;
    assert Ready(o, d, ops, n);
    forall i | 1 <= i < |s|
      ensures s[i].id != e.id && !SameKey(s[i], e)
    {
      assert Known(ops, n, s[i].id);
      assert Live(s[i]) in o;
    }
    forall j | 0 <= j < n + 1
      ensures ops[j] != Del(e.id)
    {
      assert Ready(o, d, ops, j);
    }
    if e.origin == HeadId {
      FindAt(s, 0);
    }
  }

  lemma EraseCanonical(s: Doc, id: bytes)
    requires Canonical(s)
    ensures Canonical(Erase(s, id))
  {
    var r := Erase(s, id);
    EraseWellFormed(s, id);
    forall j, i | 1 <= j < i < |r| && Par(r, i) < j
      ensures Par(r, i) <= Par(r, j)
    {
      EraseFind(s, id, r[i].origin);
      EraseFind(s, id, r[j].origin);
      assert r[i].origin == s[i].origin && r[j].origin == s[j].origin;
      assert Par(s, i) <= Par(s, j);
    }
  }

  lemma HoldsAfterErase(o: set<Elem>, ops: seq<Op>, n: nat, s: Doc)
    requires n < |ops| && ops[n].Del? && ops[n].target != HeadId && Has(s, ops[n].target)
    requires Holds(o, ops, n, s) && Distinct(s)
    ensures Holds(o, ops, n + 1, Erase(s, ops[n].target))
  {
    var id := ops[n].target;
    var r := Erase(s, id);
    EraseFind(s, id, id);
    forall i | 1 <= i < |r|
      ensures Live(r[i]) in o && Known(ops, n + 1, r[i].id) && (r[i].deleted <==> Erased(ops, n + 1, r[i].id))
    {
      assert Live(r[i]) == Live(s[i]) && Known(ops, n, s[i].id);
      assert ops[n] == Del(id);
    }
    forall j | 0 <= j < n + 1 && ops[j].Ins?
      ensures Has(r, ops[j].elem.id)
    {
      EraseFind(s, id, ops[j].elem.id);
    }
  }

  lemma TargetKnown(o: set<Elem>, d: set<bytes>, ops: seq<Op>, n: nat, s: Doc)
    requires Inserts(o) && Delivery(o, d, ops) && n < |ops| && ops[n].Del? && Holds(o, ops, n, s)
    ensures ops[n].target != HeadId && Has(s, ops[n].target)
  {
    assert Ready(o, d, ops, n);
    var j :| 0 <= j < n && ops[j].Ins? && ops[j].elem.id == ops[n].target;
    assert Ready(o, d, ops, j);
  }

  lemma InsertStep(o: set<Elem>, d: set<bytes>, ops: seq<Op>, n: nat, s: Doc)
    requires Inserts(o) && RightEdge(o) && Delivery(o, d, ops) && n < |ops| && ops[n].Ins?
    requires Canonical(s) && Holds(o, ops, n, s)
    ensures Canonical(Apply(s, ops[n])) && Holds(o, ops, n + 1, Apply(s, ops[n]))
  {
    var e := ops[n].elem;
    FreshDelivery(o, d, ops, n, s);
    PlaceCanonical(o, s, e);
    HoldsAfterInsert(o, ops, n, s, InsertPos(s, Find(s, e.origin), e));
  }

  lemma EraseStep(o: set<Elem>, d: set<bytes>, ops: seq<Op>, n: nat, s: Doc)
    requires Inserts(o) && Delivery(o, d, ops) && n < |ops| && ops[n].Del?
    requires Canonical(s) && Holds(o, ops, n, s)
    ensures Canonical(Apply(s, ops[n])) && Holds(o, ops, n + 1, Apply(s, ops[n]))
  {
    TargetKnown(o, d, ops, n, s);
    EraseCanonical(s, ops[n].target);
    HoldsAfterErase(o, ops, n, s);
  }

  lemma OneDelivery(o: set<Elem>, d: set<bytes>, ops: seq<Op>, n: nat, s: Doc, r: Doc)
    requires Inserts(o) && RightEdge(o) && Delivery(o, d, ops) && n < |ops| && r == Apply(s, ops[n])
    requires Canonical(s) && Holds(o, ops, n, s)
    ensures Canonical(r) && Holds(o, ops, n + 1, r)
  {
    if ops[n].Ins? {
      InsertStep(o, d, ops, n, s);
    } else {
      EraseStep(o, d, ops, n, s);
    }
  }

  lemma RunNext(s: Doc, ops: seq<Op>, n: nat)
    requires n < |ops|
    ensures Run(s, ops[..n + 1]) == Apply(Run(s, ops[..n]), ops[n])
  {
    var pre := ops[..n + 1];
    assert pre[..n] == ops[..n] && pre[n] == ops[n];
  }

  lemma HoldsAtStart(o: set<Elem>, ops: seq<Op>, s: Doc)
    requires s == [Head]
    ensures Canonical(s) && Holds(o, ops, 0, s)
  {
    FindAt(s, 0);
  }

  lemma {:induction false} HoldsAlong(o: set<Elem>, d: set<bytes>, ops: seq<Op>, n: nat, s: Doc)
    requires Inserts(o) && RightEdge(o) && Delivery(o, d, ops) && n <= |ops| && s == [Head]
    ensures Canonical(Run(s, ops[..n])) && Holds(o, ops, n, Run(s, ops[..n]))
    decreases n
  {
    if n == 0 {
      HoldsAtStart(o, ops, s);
    } else {
      HoldsAlong(o, d, ops, n - 1, s);
      RunNext(s, ops, n - 1);
      OneDelivery(o, d, ops, n - 1, Run(s, ops[..n - 1]), Run(s, ops[..n]));
    }
  }

  // Everything one delivery leaves in its list is, with the same tombstone, in the other's.
  lemma SameContents(o: set<Elem>, d: set<bytes>, ops: seq<Op>, ops': seq<Op>, s: Doc, s': Doc)
    requires Inserts(o) && Delivery(o, d, ops) && Delivery(o, d, ops')
    requires Holds(o, ops, |ops|, s) && Holds(o, ops', |ops'|, s')
    ensures forall i :: 0 <= i < |s| ==> s[i] in s'
  {
    forall i | 1 <= i < |s|
      ensures s[i] in s'
    {
      var e := Live(s[i]);
      var j :| 0 <= j < |ops'| && ops'[j] == Ins(e);
      var f := Find(s', e.id);
      assert f > 0;
      assert Live(s'[f]) == e;
      ErasedIffDeleted(o, d, ops, e.id);
      ErasedIffDeleted(o, d, ops', e.id);
      assert s'[f] == s[i];
    }
  }

  lemma ErasedIffDeleted(o: set<Elem>, d: set<bytes>, ops: seq<Op>, id: bytes)
    requires Delivery(o, d, ops)
    ensures Erased(ops, |ops|, id) <==> id in d
  {
    if Erased(ops, |ops|, id) {
      var j :| 0 <= j < |ops| && ops[j] == Del(id);
      assert Ready(o, d, ops, j);
    }
  }

  /** If branching happens only on the right edge, every two causal deliveries of the same inserts and
      deletes leave the identical list. */
  lemma RightEdgeConverges(o: set<Elem>, d: set<bytes>, ops: seq<Op>, ops': seq<Op>)
    requires Inserts(o) && RightEdge(o) && Delivery(o, d, ops) && Delivery(o, d, ops')
    ensures Run([Head], ops) == Run([Head], ops')
  {
    var s, s' := Run([Head], ops), Run([Head], ops');
    HoldsAlong(o, d, ops, |ops|, [Head]);
    HoldsAlong(o, d, ops', |ops'|, [Head]);
    assert ops[..|ops|] == ops && ops'[..|ops'|] == ops';
    SameContents(o, d, ops, ops', s, s');
    SameContents(o, d, ops', ops, s', s);
    CanonicalUnique(s, s');
  }
}
