/** The replicated growable array on values: a document is the list of its nodes in order, the head
    sentinel first and the tail sentinel left implicit. */
module RgaModel {
  import opened Bytes
  import Lex

  datatype Elem = Elem(id: bytes, value: bytes, ts: int, author: bytes, deleted: bool, origin: bytes)

  // "head", the ID of the head sentinel.
  const HeadId: bytes := [104, 101, 97, 100]
  const Head: Elem := Elem(HeadId, [], 0, [], false, [])

  type Doc = seq<Elem>

  /** Sibling order: (Timestamp, Author). */
  predicate Before(a: Elem, b: Elem) {
    if a.ts != b.ts then a.ts < b.ts else Lex.Less(a.author, b.author)
  }

  predicate SameKey(a: Elem, b: Elem) {
    a.ts == b.ts && a.author == b.author
  }

  lemma BeforeAsymmetric(a: Elem, b: Elem)
    ensures Before(a, b) ==> !Before(b, a) && !SameKey(a, b)
  {
    Lex.Irreflexive(a.author);
    if a.ts == b.ts && Before(a, b) {
      Lex.Asymmetric(a.author, b.author);
    }
  }

  lemma BeforeTransitive(a: Elem, b: Elem, c: Elem)
    requires Before(a, b) && Before(b, c)
    ensures Before(a, c)
  {
    if a.ts == b.ts && b.ts == c.ts {
      Lex.Transitive(a.author, b.author, c.author);
    }
  }

  lemma BeforeTotal(a: Elem, b: Elem)
    ensures SameKey(a, b) || Before(a, b) || Before(b, a)
  {
    if a.ts == b.ts {
      Lex.Total(a.author, b.author);
    }
  }

  /** Position of the node with this ID, or |s| when there is none. */
  function Find(s: Doc, id: bytes): (k: nat)
    ensures k <= |s|
    ensures k < |s| ==> s[k].id == id
    ensures forall i :: 0 <= i < k ==> s[i].id != id
  {
    if s == [] || s[0].id == id then 0
    else
      var r := Find(s[1..], id);
      assert forall i :: 1 <= i < r + 1 ==> s[i] == s[1..][i - 1];
      r + 1
  }

  predicate Has(s: Doc, id: bytes) {
    Find(s, id) < |s|
  }

  /** Position of the causal parent of the node at i. */
  function Par(s: Doc, i: nat): (k: nat)
    requires i < |s|
    ensures k <= |s|
  {
    Find(s, s[i].origin)
  }

  ghost predicate Distinct(s: Doc) {
    forall i, j :: 0 <= i < j < |s| ==> s[i].id != s[j].id
  }

  lemma FindAt(s: Doc, i: nat)
    requires Distinct(s) && i < |s|
    ensures Find(s, s[i].id) == i
  {
  }

  /** First position from c on that holds a child of `parent` not sorting before n; |s| if none. */
  function NextSibling(s: Doc, parent: bytes, c: nat, n: Elem): (k: nat)
    requires c <= |s|
    ensures c <= k <= |s|
    ensures k < |s| ==> s[k].origin == parent && !Before(s[k], n)
    ensures forall i :: c <= i < k && s[i].origin == parent ==> Before(s[i], n)
    decreases |s| - c
  {
    if c == |s| || (s[c].origin == parent && !Before(s[c], n)) then c
    else NextSibling(s, parent, c + 1, n)
  }

  /** Where insertOrdered splices n when asked to put it after position a. */
  function InsertPos(s: Doc, a: nat, n: Elem): (k: nat)
    requires a < |s|
    ensures a < k <= |s|
  {
    if a + 1 < |s| && s[a + 1].origin == s[a].id then NextSibling(s, s[a].id, a + 1, n) else a + 1
  }

  function InsertAt(s: Doc, k: nat, n: Elem): (r: Doc)
    requires k <= |s|
    ensures |r| == |s| + 1 && r[k] == n
    ensures forall i :: 0 <= i < k ==> r[i] == s[i]
    ensures forall i :: k < i < |r| ==> r[i] == s[i - 1]
  {
    s[..k] + [n] + s[k..]
  }

  /** Delivers n: splice it among the children of its origin; a node whose origin is unknown is left out. */
  function Place(s: Doc, n: Elem): Doc {
    var a := Find(s, n.origin);
    if a < |s| then InsertAt(s, InsertPos(s, a, n), n) else s
  }

  /** Delivers several nodes in turn. */
  function Deliver(s: Doc, es: seq<Elem>): Doc {
    if es == [] then s else Place(Deliver(s, es[..|es| - 1]), es[|es| - 1])
  }

  function Erase(s: Doc, id: bytes): Doc {
    var k := Find(s, id);
    if k < |s| then s[k := s[k].(deleted := true)] else s
  }

  /** The live text: values of the nodes after the head that are not tombstoned. */
  function Text(s: Doc): bytes {
    if |s| <= 1 then [] else Text(s[..|s| - 1]) + (if s[|s| - 1].deleted then [] else s[|s| - 1].value)
  }

  /** What every replica's list looks like, whatever was inserted, deleted or merged. */
  ghost predicate WellFormed(s: Doc) {
    && |s| > 0 && s[0].id == HeadId
    && Distinct(s)
    && OriginsPrecede(s)
    && ChildFollows(s)
    && SiblingsSorted(s)
  }

  ghost predicate OriginsPrecede(s: Doc) {
    forall i :: 1 <= i < |s| ==> Par(s, i) < i
  }

  // A node that has children is immediately followed by one of them.
  ghost predicate ChildFollows(s: Doc) {
    forall a, c :: 0 <= a < c < |s| && s[c].origin == s[a].id ==> s[a + 1].origin == s[a].id
  }

  ghost predicate SiblingsSorted(s: Doc) {
    forall i, j :: 1 <= i < j < |s| && s[i].origin == s[j].origin ==> Before(s[i], s[j])
  }

  // n is new to s: its ID and its (Timestamp, Author) key are both unused there.
  ghost predicate Fresh(s: Doc, n: Elem) {
    && (forall i :: 0 <= i < |s| ==> s[i].id != n.id)
    && (forall i :: 1 <= i < |s| ==> !SameKey(s[i], n))
  }

  lemma FindInserted(s: Doc, k: nat, n: Elem, id: bytes)
    requires k <= |s| && Distinct(s) && !Has(s, n.id)
    ensures Distinct(InsertAt(s, k, n))
    ensures id != n.id ==> Find(InsertAt(s, k, n), id) == (if Find(s, id) < k then Find(s, id) else Find(s, id) + 1)
    ensures Find(InsertAt(s, k, n), n.id) == k
  {
    var r := InsertAt(s, k, n);
    assert forall i :: 0 <= i < |s| ==> s[i].id != n.id;
    assert Distinct(r);
    var g := Find(s, id);
    if id != n.id {
      if g < |s| {
        var g' := if g < k then g else g + 1;
        assert r[g'].id == id;
        FindAt(r, g');
      } else {
        assert forall i :: 0 <= i < |r| && i != k ==> r[i] == s[if i < k then i else i - 1];
        assert forall i :: 0 <= i < |r| ==> r[i].id != id;
      }
    }
    FindAt(r, k);
  }

  /** Splicing at the right place keeps the origins ahead of their children. */
  lemma InsertKeepsOrigins(s: Doc, a: nat, k: nat, n: Elem)
    requires Distinct(s) && OriginsPrecede(s) && !Has(s, n.id)
    requires a < k <= |s| && n.origin == s[a].id
    ensures OriginsPrecede(InsertAt(s, k, n))
  {
    var r := InsertAt(s, k, n);
    forall i | 1 <= i < |r|
      ensures Par(r, i) < i
    {
      FindInserted(s, k, n, r[i].origin);
      if i == k {
        FindAt(s, a);
      } else {
        var i' := if i < k then i else i - 1;
        assert r[i] == s[i'] && Par(s, i') < i';
      }
    }
  }

  // Nothing in s descends from a node whose ID is not there.
  lemma NoChildOfAbsent(s: Doc, id: bytes)
    requires OriginsPrecede(s) && !Has(s, id)
    ensures forall i :: 1 <= i < |s| ==> s[i].origin != id
  {
    forall i | 1 <= i < |s|
      ensures s[i].origin != id
    {
      assert Par(s, i) < i;
    }
  }

  lemma InsertKeepsChildFollows(s: Doc, a: nat, n: Elem)
    requires Distinct(s) && OriginsPrecede(s) && ChildFollows(s) && !Has(s, n.id)
    requires a < |s| && n.origin == s[a].id
    ensures ChildFollows(InsertAt(s, InsertPos(s, a, n), n))
  {
    var k := InsertPos(s, a, n);
    var r := InsertAt(s, k, n);
    NoChildOfAbsent(s, n.id);
    forall x, c | 0 <= x < c < |r| && r[c].origin == r[x].id
      ensures r[x + 1].origin == r[x].id
    {
      if c == k {
        assert x == a;
      } else {
        var x' := if x < k then x else x - 1;
        var c' := if c < k then c else c - 1;
        assert r[c] == s[c'];
        assert x != k;
        assert s[c'].origin == s[x'].id;
        assert s[x' + 1].origin == s[x'].id;
      }
    }
  }

  lemma InsertKeepsSorted(s: Doc, a: nat, n: Elem)
    requires Distinct(s) && OriginsPrecede(s) && ChildFollows(s) && SiblingsSorted(s) && Fresh(s, n)
    requires a < |s| && n.origin == s[a].id
    ensures SiblingsSorted(InsertAt(s, InsertPos(s, a, n), n))
  {
    var k := InsertPos(s, a, n);
    var r := InsertAt(s, k, n);
    forall i, j | 1 <= i < j < |r| && r[i].origin == r[j].origin
      ensures Before(r[i], r[j])
    {
      var i' := if i < k then i else i - 1;
      var j' := if j < k then j else j - 1;
      if i == k {
        assert s[j'].origin == s[a].id;
        FindAt(s, a);
        assert Par(s, j') == a;
        assert s[k].origin == s[a].id && !Before(s[k], n);
        BeforeTotal(n, s[k]);
        if k < j' {
          BeforeTransitive(n, s[k], s[j']);
        }
      } else if j == k {
        FindAt(s, a);
        assert Par(s, i') == a;
        assert a < i' < k;
      }
    }
  }

  /** Delivering a fresh node preserves the whole structural invariant. */
  lemma PlaceWellFormed(s: Doc, n: Elem)
    requires WellFormed(s) && Fresh(s, n)
    ensures WellFormed(Place(s, n))
  {
    var a := Find(s, n.origin);
    if a < |s| {
      var k := InsertPos(s, a, n);
      FindInserted(s, k, n, n.id);
      InsertKeepsOrigins(s, a, k, n);
      InsertKeepsChildFollows(s, a, n);
      InsertKeepsSorted(s, a, n);
    }
  }

  lemma {:induction false} FindSameIds(s: Doc, r: Doc, x: bytes)
    requires |r| == |s| && forall i :: 0 <= i < |s| ==> r[i].id == s[i].id
    ensures Find(r, x) == Find(s, x)
  {
    if |s| > 0 && s[0].id != x {
      FindSameIds(s[1..], r[1..], x);
    }
  }

  lemma EraseFind(s: Doc, id: bytes, x: bytes)
    ensures |Erase(s, id)| == |s|
    ensures forall i :: 0 <= i < |s| ==> Erase(s, id)[i] == s[i].(deleted := Erase(s, id)[i].deleted)
    ensures Find(Erase(s, id), x) == Find(s, x)
  {
    var r := Erase(s, id);
    assert forall i :: 0 <= i < |s| ==> r[i].id == s[i].id;
    FindSameIds(s, r, x);
  }

  lemma EraseWellFormed(s: Doc, id: bytes)
    requires WellFormed(s)
    ensures WellFormed(Erase(s, id))
  {
    var r := Erase(s, id);
    EraseFind(s, id, []);
    forall i | 1 <= i < |r|
      ensures Par(r, i) < i
    {
      EraseFind(s, id, r[i].origin);
      assert Par(s, i) < i;
    }
    forall i, j | 1 <= i < j < |r| && r[i].origin == r[j].origin
      ensures Before(r[i], r[j])
    {
      assert Before(s[i], s[j]);
    }
    assert forall a, c :: 0 <= a < c < |r| && r[c].origin == r[a].id ==> s[c].origin == s[a].id;
  }

  ghost predicate Precedes(s: Doc, u: bytes, v: bytes) {
    exists i, j :: 0 <= i < j < |s| && s[i].id == u && s[j].id == v
  }

  lemma {:induction false} PlaceKeepsOrder(s: Doc, n: Elem, u: bytes, v: bytes)
    requires Precedes(s, u, v)
    ensures Precedes(Place(s, n), u, v)
  {
    var i, j :| 0 <= i < j < |s| && s[i].id == u && s[j].id == v;
    var a := Find(s, n.origin);
    var r := Place(s, n);
    if a < |s| {
      var k := InsertPos(s, a, n);
      var i', j' := if i < k then i else i + 1, if j < k then j else j + 1;
      assert r[i'] == s[i] && r[j'] == s[j] && i' < j';
    }
  }

  lemma PlaceFirst(s: Doc, p: nat, n: Elem, s': Doc)
    requires Distinct(s) && p < |s| && s[p].id == n.origin && s' == s[..p + 1] + [n] + s[p + 1..]
    requires p + 1 < |s| ==> s[p + 1].origin != n.origin
    ensures Place(s, n) == s'
  {
    FindAt(s, p);
  }
}
