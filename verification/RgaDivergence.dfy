/** The other half of the convergence condition: a set of inserts that branches anywhere but on the
    right edge of its causal tree has two causal delivery orders that end in different lists. */
module RgaDivergence {
  import opened Bytes
  import opened RgaModel
  import opened RgaConvergence

  function Inserted(es: seq<Elem>): (ops: seq<Op>)
    ensures |ops| == |es| && forall i :: 0 <= i < |es| ==> ops[i] == Ins(es[i])
  {
    seq(|es|, i requires 0 <= i < |es| => Ins(es[i]))
  }

  lemma {:induction false} DeliverIsRun(s: Doc, es: seq<Elem>)
    ensures Run(s, Inserted(es)) == Deliver(s, es)
  {
    if es != [] {
      DeliverIsRun(s, es[..|es| - 1]);
      assert Inserted(es)[..|es| - 1] == Inserted(es[..|es| - 1]);
    }
  }

  // Some of the inserts, each once, origins first.
  ghost predicate Closed(o: set<Elem>, es: seq<Elem>) {
    && Distinct(es)
    && (forall i :: 0 <= i < |es| ==> es[i] in o && (es[i].origin == HeadId || Par(es, i) < i))
  }

  /** All of the inserts, each once, origins first. */
  ghost predicate Causal(o: set<Elem>, es: seq<Elem>) {
    Closed(o, es) && forall e :: e in o ==> e in es
  }

  lemma CausalIsDelivery(o: set<Elem>, es: seq<Elem>)
    requires Causal(o, es)
    ensures Delivery(o, {}, Inserted(es))
  {
    var ops := Inserted(es);
    forall i | 0 <= i < |ops|
      ensures Ready(o, {}, ops, i)
    {
      if es[i].origin != HeadId {
        assert ops[Par(es, i)].elem.id == es[i].origin;
      }
    }
    forall e | e in o
      ensures exists i :: 0 <= i < |ops| && ops[i] == Ins(e)
    {
      var i :| 0 <= i < |es| && es[i] == e;
      assert ops[i] == Ins(e);
    }
  }

  lemma DeliveryIsCausal(o: set<Elem>, d: set<bytes>, ops: seq<Op>) returns (es: seq<Elem>)
    requires Delivery(o, d, ops)
    ensures Causal(o, es)
  {
    es := OnlyInserts(o, d, ops, |ops|);
    forall e | e in o
      ensures e in es
    {
      var i :| 0 <= i < |ops| && ops[i] == Ins(e);
      assert ops[i].elem in es;
    }
  }

  lemma {:induction false} OnlyInserts(o: set<Elem>, d: set<bytes>, ops: seq<Op>, n: nat) returns (es: seq<Elem>)
    requires Delivery(o, d, ops) && n <= |ops|
    ensures Closed(o, es)
    ensures forall i :: 0 <= i < n && ops[i].Ins? ==> ops[i].elem in es
    ensures forall i :: 0 <= i < |es| ==> exists j :: 0 <= j < n && ops[j] == Ins(es[i])
  {
    if n == 0 {
      es := [];
    } else {
      es := OnlyInserts(o, d, ops, n - 1);
      if ops[n - 1].Ins? {
        var e := ops[n - 1].elem;
        assert Ready(o, d, ops, n - 1);
        assert !Has(es, e.id);
        if e.origin != HeadId {
          var j :| 0 <= j < n - 1 && ops[j].Ins? && ops[j].elem.id == e.origin;
          assert ops[j].elem in es;
        }
        ClosedAppend(o, es, e);
        es := es + [e];
      }
    }
  }

  lemma ClosedAppend(o: set<Elem>, es: seq<Elem>, e: Elem)
    requires Closed(o, es) && e in o && !Has(es, e.id)
    requires e.origin == HeadId || exists x :: x in es && x.id == e.origin
    ensures Closed(o, es + [e])
  {
    var r := es + [e];
    forall i | 0 <= i < |r|
      ensures r[i].origin == HeadId || Par(r, i) < i
    {
      if r[i].origin != HeadId {
        var p: nat;
        if i < |es| {
          p := Par(es, i);
        } else {
          p :| 0 <= p < |es| && es[p].id == e.origin;
        }
        assert r[p] == es[p];
      }
    }
  }

  // ---------- the chain from the head down to a node ----------

  ghost predicate Chain(o: set<Elem>, c: seq<Elem>) {
    && |c| > 0 && c[0].origin == HeadId && Distinct(c)
    && (forall t :: 0 <= t < |c| ==> c[t] in o)
    && (forall t, u :: 0 <= t && u == t + 1 && u < |c| ==> c[u].origin == c[t].id)
  }

  lemma {:induction false} Ancestors(o: set<Elem>, es: seq<Elem>, i: nat) returns (c: seq<Elem>)
    requires Closed(o, es) && i < |es|
    ensures Chain(o, c) && c[|c| - 1] == es[i]
    ensures forall t :: 0 <= t < |c| ==> Find(es, c[t].id) <= i
    decreases i
  {
    FindAt(es, i);
    if es[i].origin == HeadId {
      c := [es[i]];
    } else {
      var up := Ancestors(o, es, Par(es, i));
      c := up + [es[i]];
    }
  }

  // A climb from the end of a chain retraces the chain.
  lemma {:induction false} ClimbRetraces(o: set<Elem>, c: seq<Elem>, path: seq<Elem>, m: nat)
    requires Inserts(o) && Chain(o, c) && Climb(o, path) && path[0] == c[|c| - 1] && m < |path|
    ensures m < |c| && path[m] == c[|c| - 1 - m]
  {
    if m > 0 {
      ClimbRetraces(o, c, path, m - 1);
      assert path[m].id == path[m - 1].origin;
      assert path[m].id != HeadId;
      assert c[|c| - m - 1].id == c[|c| - m].origin;
    }
  }

  // ---------- completing a closed beginning to a full delivery order ----------

  function Rest(es: seq<Elem>, pre: seq<Elem>): seq<Elem> {
    if es == [] then []
    else Rest(es[..|es| - 1], pre) + (if Has(pre, es[|es| - 1].id) then [] else [es[|es| - 1]])
  }

  lemma {:induction false} RestWithin(es: seq<Elem>, pre: seq<Elem>)
    ensures forall x :: x in Rest(es, pre) ==> x in es && !Has(pre, x.id)
  {
    if es != [] {
      RestWithin(es[..|es| - 1], pre);
    }
  }

  lemma {:induction false} CompleteUpTo(o: set<Elem>, es: seq<Elem>, pre: seq<Elem>, n: nat)
    requires Closed(o, es) && Closed(o, pre) && n <= |es|
    ensures Closed(o, pre + Rest(es[..n], pre))
    ensures forall j :: 0 <= j < n ==> exists x :: x in pre + Rest(es[..n], pre) && x.id == es[j].id
  {
    var q := pre + Rest(es[..n], pre);
    if n == 0 {
      assert q == pre;
    } else {
      CompleteUpTo(o, es, pre, n - 1);
      assert es[..n][..n - 1] == es[..n - 1];
      var q' := pre + Rest(es[..n - 1], pre);
      var e := es[n - 1];
      if Has(pre, e.id) {
        assert q == q';
        assert pre[Find(pre, e.id)] in q;
      } else {
        assert q == q' + [e];
        NotYetThere(o, es, pre, n - 1, q');
        if e.origin != HeadId {
          assert es[Par(es, n - 1)].id == e.origin;
        }
        ClosedAppend(o, q', e);
      }
    }
  }

  lemma NotYetThere(o: set<Elem>, es: seq<Elem>, pre: seq<Elem>, n: nat, q: seq<Elem>)
    requires Closed(o, es) && n < |es| && q == pre + Rest(es[..n], pre) && !Has(pre, es[n].id)
    ensures !Has(q, es[n].id)
  {
    RestWithin(es[..n], pre);
    assert forall x :: x in q ==> x in pre || x in Rest(es[..n], pre);
    assert forall x :: x in pre ==> x.id != es[n].id;
  }

  lemma Complete(o: set<Elem>, es: seq<Elem>, pre: seq<Elem>)
    requires Inserts(o) && Causal(o, es) && Closed(o, pre)
    ensures Causal(o, pre + Rest(es, pre))
  {
    var q := pre + Rest(es, pre);
    CompleteUpTo(o, es, pre, |es|);
    assert es[..|es|] == es;
    forall e | e in o
      ensures e in q
    {
      var j :| 0 <= j < |es| && es[j] == e;
      var x :| x in q && x.id == e.id;
      assert x in o;
    }
  }

  // ---------- delivery keeps what it placed, in the order it placed it ----------

  lemma {:induction false} DeliverKeepsOrder(s: Doc, pre: seq<Elem>, rest: seq<Elem>, u: bytes, v: bytes)
    requires Precedes(Deliver(s, pre), u, v)
    ensures Precedes(Deliver(s, pre + rest), u, v)
  {
    if rest == [] {
      assert pre + rest == pre;
    } else {
      var n := |rest| - 1;
      DeliverKeepsOrder(s, pre, rest[..n], u, v);
      assert pre + rest == pre + rest[..n] + [rest[n]];
      OneMoreKeepsOrder(s, pre + rest[..n], rest[n], u, v);
    }
  }

  lemma OneMoreKeepsOrder(s: Doc, es: seq<Elem>, e: Elem, u: bytes, v: bytes)
    requires Precedes(Deliver(s, es), u, v)
    ensures Precedes(Deliver(s, es + [e]), u, v)
  {
    PlaceKeepsOrder(Deliver(s, es), e, u, v);
    DeliverNext(s, es, Deliver(s, es), e, es + [e], Place(Deliver(s, es), e));
  }

  lemma PlaceDistinct(s: Doc, e: Elem)
    requires Distinct(s) && forall x :: x in s ==> x.id != e.id
    ensures Distinct(Place(s, e))
    ensures forall x :: x in Place(s, e) ==> x in s || x == e
  {
    var a := Find(s, e.origin);
    if a < |s| {
      FindInserted(s, InsertPos(s, a, e), e, e.id);
    }
  }

  lemma ClosedPrefix(o: set<Elem>, es: seq<Elem>, n: nat)
    requires Closed(o, es) && n <= |es|
    ensures Closed(o, es[..n])
  {
    var m := es[..n];
    forall i | 0 <= i < |m|
      ensures m[i] in o && (m[i].origin == HeadId || Par(m, i) < i)
    {
      assert m[i] == es[i];
      if m[i].origin != HeadId {
        assert m[Par(es, i)].id == m[i].origin;
      }
    }
  }

  lemma {:induction false} DeliverDistinct(o: set<Elem>, es: seq<Elem>)
    requires Inserts(o) && Closed(o, es)
    ensures Distinct(Deliver([Head], es))
    ensures forall x :: x in Deliver([Head], es) ==> x == Head || x in es
  {
    if es != [] {
      var n := |es| - 1;
      ClosedPrefix(o, es, n);
      DeliverDistinct(o, es[..n]);
      forall x | x in Deliver([Head], es[..n])
        ensures x.id != es[n].id && (x == Head || x in es)
      {
        if x != Head {
          var i :| 0 <= i < n && es[..n][i] == x;
          assert es[i] == x;
        }
      }
      PlaceDistinct(Deliver([Head], es[..n]), es[n]);
    }
  }

  lemma OppositeOrdersDiffer(s: Doc, t: Doc, u: bytes, v: bytes)
    requires Distinct(s) && Precedes(s, u, v) && Precedes(t, v, u)
    ensures s != t
  {
  }

  // ---------- the diverging pair ----------

  lemma {:induction false} DeliverChain(o: set<Elem>, c: seq<Elem>, h: Doc)
    requires Inserts(o) && Chain(o, c) && |h| == 1 && h[0] == Head
    ensures Deliver(h, c) == h + c
    decreases |c|
  {
    var m := c[..|c| - 1];
    if |m| > 0 {
      DeliverChain(o, m, h);
    } else {
      assert h + m == h;
    }
    ChainGrows(o, c, h, m, c[|c| - 1], h + m);
  }

  lemma ChainGrows(o: set<Elem>, c: seq<Elem>, h: Doc, m: seq<Elem>, e: Elem, s: Doc)
    requires Inserts(o) && Chain(o, c) && |h| == 1 && h[0] == Head && c == m + [e] && s == h + m && Deliver(h, m) == s
    ensures Deliver(h, c) == h + c
  {
    assert c[..|m|] == m;
    ChainTip(o, c, h, s);
    PlaceFirst(s, |m|, e, s + [e]);
    DeliverNext(h, m, s, e, c, s + [e]);
    assert h + c == s + [e];
  }

  lemma ChainTip(o: set<Elem>, c: seq<Elem>, h: Doc, s: Doc)
    requires Inserts(o) && Chain(o, c) && |h| == 1 && h[0] == Head && s == h + c[..|c| - 1]
    ensures Distinct(s) && s[|c| - 1].id == c[|c| - 1].origin && s + [c[|c| - 1]] == s[..|c|] + [c[|c| - 1]] + s[|c|..]
  {
    assert |c| > 1 ==> s[|c| - 1] == c[|c| - 2];
    forall i, j | 0 <= i < j < |s| ensures s[i].id != s[j].id {
      assert s[j] == c[j - 1] && (i > 0 ==> s[i] == c[i - 1]);
    }
  }

  // c leads to a node with children a and b; w follows c[t] among the children of the same origin.
  ghost predicate Fork(o: set<Elem>, c: seq<Elem>, t: nat, a: Elem, b: Elem, w: Elem) {
    && Chain(o, c) && t < |c| && a in o && b in o && w in o
    && a.origin == c[|c| - 1].id && b.origin == c[|c| - 1].id && Before(a, b)
    && w.origin == c[t].origin && Before(c[t], w)
  }

  // The list of a chain: every node hangs off the one before it.
  ghost predicate Path(s: Doc) {
    Distinct(s) && forall i, j :: 0 <= i && j == i + 1 && j < |s| ==> s[j].origin == s[i].id
  }

  lemma ChainIsPath(o: set<Elem>, c: seq<Elem>, s: Doc)
    requires Inserts(o) && Chain(o, c) && s == [Head] + c
    ensures Path(s)
    ensures forall i :: 1 <= i < |s| ==> s[i] == c[i - 1] && s[i] in o && s[i].id != HeadId
  {
    forall i | 1 <= i < |s|
      ensures s[i] == c[i - 1] && s[i] in o && s[i].origin == s[i - 1].id
    {
      assert i > 1 ==> c[i - 1].origin == c[i - 2].id;
    }
  }

  // A node that hangs off s[p] is on the path only as s[p + 1].
  lemma OnPath(o: set<Elem>, s: Doc, p: nat, e: Elem)
    requires Inserts(o) && Path(s) && p < |s| && e.origin == s[p].id && e in o
    requires s[0].id == HeadId && forall i :: 1 <= i < |s| ==> s[i] in o
    requires p + 1 < |s| ==> s[p + 1] != e
    ensures !Has(s, e.id)
  {
    forall i | 1 <= i < |s|
      ensures s[i].id != e.id
    {
      assert s[i].origin == s[i - 1].id;
      assert i - 1 != p ==> s[i - 1].id != s[p].id;
    }
  }

  lemma DistinctSnoc(s: Doc, e: Elem, r: Doc)
    requires Distinct(s) && r == s + [e] && forall i :: 0 <= i < |s| ==> s[i].id != e.id
    ensures Distinct(r)
  {
  }

  // w goes to the very end: after its one earlier sibling the scan runs off the list.
  lemma PlaceLate(s: Doc, p: nat, w: Elem, s': Doc)
    requires Distinct(s) && p + 1 < |s| && s[p].id == w.origin == s[p + 1].origin && Before(s[p + 1], w)
    requires s' == s + [w] && forall i :: p + 1 < i < |s| ==> s[i].origin != w.origin
    ensures Place(s, w) == s'
  {
    FindAt(s, p);
    assert NextSibling(s, w.origin, p + 1, w) == |s|;
  }

  // What makes the two orders work, on the list s of the chain.
  ghost predicate ForkList(s: Doc, t: nat, a: Elem, b: Elem, w: Elem) {
    && Path(s) && t + 1 < |s|
    && a.origin == s[|s| - 1].id && b.origin == s[|s| - 1].id && Before(a, b)
    && w.origin == s[t].id && Before(s[t + 1], w)
    && (forall i :: 0 <= i < |s| ==> s[i].id != a.id && s[i].id != b.id && s[i].id != w.id)
    && a.id != b.id && a.id != w.id && b.id != w.id
  }

  lemma ForkShape(o: set<Elem>, c: seq<Elem>, t: nat, a: Elem, b: Elem, w: Elem, s: Doc)
    requires Inserts(o) && Fork(o, c, t, a, b, w) && s == [Head] + c
    ensures ForkList(s, t, a, b, w)
  {
    ChainIsPath(o, c, s);
    BeforeAsymmetric(a, b);
    BeforeAsymmetric(c[t], w);
    assert s[t + 1] == c[t];
    AbsentAll(o, s, |c|, a);
    AbsentAll(o, s, |c|, b);
    AbsentAll(o, s, t, w);
    assert s[t].id != s[|c|].id;
  }

  lemma AbsentAll(o: set<Elem>, s: Doc, p: nat, e: Elem)
    requires Inserts(o) && Path(s) && p < |s| && e.origin == s[p].id && e in o
    requires s[0].id == HeadId && forall i :: 1 <= i < |s| ==> s[i] in o
    requires p + 1 < |s| ==> s[p + 1] != e
    ensures forall i :: 0 <= i < |s| ==> s[i].id != e.id
  {
    OnPath(o, s, p, e);
  }

  lemma PathOrigins(s: Doc, p: nat)
    requires Path(s) && p < |s|
    ensures forall i :: 1 <= i < |s| && i != p + 1 ==> s[i].origin != s[p].id
  {
    forall i | 1 <= i < |s| && i != p + 1
      ensures s[i].origin != s[p].id
    {
      assert s[i].origin == s[i - 1].id;
    }
  }

  // Delivered below its chain first, b stays ahead of w ...
  lemma ForkFirst(s: Doc, t: nat, a: Elem, b: Elem, w: Elem, s1: Doc, s2: Doc, s3: Doc)
    requires ForkList(s, t, a, b, w) && s1 == s + [a] && s2 == s1 + [b] && s3 == s2 + [w]
    ensures Place(s, a) == s1 && Place(s1, b) == s2 && Place(s2, w) == s3
  {
    PathOrigins(s, t);
    PlaceFirst(s, |s| - 1, a, s1);
    DistinctSnoc(s, a, s1);
    PlaceLate(s1, |s| - 1, b, s2);
    DistinctSnoc(s1, b, s2);
    PlaceLate(s2, t, w, s3);
  }

  // ... but once w is there, the scan past a's subtree overshoots and puts b behind w.
  lemma ForkLast(s: Doc, t: nat, a: Elem, b: Elem, w: Elem, s1: Doc, s2: Doc, s3: Doc)
    requires ForkList(s, t, a, b, w) && s1 == s + [w] && s2 == s + [a, w] && s3 == s2 + [b]
    ensures Place(s, w) == s1 && Place(s1, a) == s2 && Place(s2, b) == s3
  {
    ForkLastW(s, t, a, b, w, s1);
    ForkLastA(s, t, a, b, w, s1, s2);
    ForkLastB(s, t, a, b, w, s2, s3);
  }

  lemma ForkLastW(s: Doc, t: nat, a: Elem, b: Elem, w: Elem, s1: Doc)
    requires ForkList(s, t, a, b, w) && s1 == s + [w]
    ensures Place(s, w) == s1
  {
    PathOrigins(s, t);
    PlaceLate(s, t, w, s1);
  }

  lemma ForkLastA(s: Doc, t: nat, a: Elem, b: Elem, w: Elem, s1: Doc, s2: Doc)
    requires ForkList(s, t, a, b, w) && s1 == s + [w] && s2 == s + [a, w]
    ensures Place(s1, a) == s2
  {
    DistinctSnoc(s, w, s1);
    PlaceFirst(s1, |s| - 1, a, s2);
  }

  lemma ForkLastB(s: Doc, t: nat, a: Elem, b: Elem, w: Elem, s2: Doc, s3: Doc)
    requires ForkList(s, t, a, b, w) && s2 == s + [a, w] && s3 == s2 + [b]
    ensures Place(s2, b) == s3
  {
    DistinctSnoc(s, a, s + [a]);
    DistinctSnoc(s + [a], w, s2);
    PlaceLate(s2, |s| - 1, b, s3);
  }

  lemma DeliverNext(h: Doc, d: seq<Elem>, s: Doc, e: Elem, d': seq<Elem>, s': Doc)
    requires Deliver(h, d) == s && Place(s, e) == s' && d' == d + [e]
    ensures Deliver(h, d') == s'
  {
    assert d'[..|d'| - 1] == d;
  }

  lemma DeliverThree(h: Doc, c: seq<Elem>, s: Doc, x: Elem, y: Elem, z: Elem, s1: Doc, s2: Doc, s3: Doc)
    requires Deliver(h, c) == s && Place(s, x) == s1 && Place(s1, y) == s2 && Place(s2, z) == s3
    ensures Deliver(h, c + [x, y, z]) == s3
  {
    var c1, c2, c3 := c + [x], c + [x, y], c + [x, y, z];
    DeliverNext(h, c, s, x, c1, s1);
    DeliverNext(h, c1, s1, y, c2, s2);
    DeliverNext(h, c2, s2, z, c3, s3);
  }

  lemma ForkDeliveredFirst(h: Doc, c: seq<Elem>, s: Doc, t: nat, a: Elem, b: Elem, w: Elem)
    requires Deliver(h, c) == s && ForkList(s, t, a, b, w)
    ensures Precedes(Deliver(h, c + [a, b, w]), b.id, w.id)
  {
    var s1 := s + [a];
    var s2 := s1 + [b];
    var s3 := s2 + [w];
    ForkFirst(s, t, a, b, w, s1, s2, s3);
    DeliverThree(h, c, s, a, b, w, s1, s2, s3);
    Ends(s1, b, w, s3);
  }

  lemma ForkDeliveredLast(h: Doc, c: seq<Elem>, s: Doc, t: nat, a: Elem, b: Elem, w: Elem)
    requires Deliver(h, c) == s && ForkList(s, t, a, b, w)
    ensures Precedes(Deliver(h, c + [w, a, b]), w.id, b.id)
  {
    var s1 := s + [w];
    var s2 := s + [a, w];
    var s3 := s2 + [b];
    ForkLast(s, t, a, b, w, s1, s2, s3);
    DeliverThree(h, c, s, w, a, b, s1, s2, s3);
    Ends(s + [a], w, b, s3);
  }

  lemma Ends(s: Doc, u: Elem, v: Elem, r: Doc)
    requires r == s + [u, v] || r == s + [u] + [v]
    ensures Precedes(r, u.id, v.id)
  {
    assert r[|s|] == u && r[|s| + 1] == v;
  }

  lemma ForkDelivered(o: set<Elem>, c: seq<Elem>, t: nat, a: Elem, b: Elem, w: Elem)
    requires Inserts(o) && Fork(o, c, t, a, b, w)
    ensures Precedes(Deliver([Head], c + [a, b, w]), b.id, w.id)
    ensures Precedes(Deliver([Head], c + [w, a, b]), w.id, b.id)
  {
    var s := [Head] + c;
    ForkShape(o, c, t, a, b, w, s);
    DeliverChain(o, c, [Head]);
    ForkDeliveredFirst([Head], c, s, t, a, b, w);
    ForkDeliveredLast([Head], c, s, t, a, b, w);
  }

  lemma {:induction false} ChainClosed(o: set<Elem>, c: seq<Elem>)
    requires Chain(o, c)
    ensures Closed(o, c)
  {
    forall i | 0 <= i < |c|
      ensures c[i].origin == HeadId || Par(c, i) < i
    {
      if i > 0 {
        FindAt(c, i - 1);
      }
    }
  }

  // Both beginnings respect causality.
  lemma ForkClosed(o: set<Elem>, c: seq<Elem>, t: nat, a: Elem, b: Elem, w: Elem)
    requires Inserts(o) && Fork(o, c, t, a, b, w)
    ensures Closed(o, c + [a, b, w]) && Closed(o, c + [w, a, b])
  {
    ChainClosed(o, c);
    ForkApart(o, c, t, a, b, w);
    assert c[|c| - 1] in c;
    assert w.origin == HeadId || exists y :: y in c && y.id == w.origin by {
      if t > 0 {
        assert c[t - 1] in c && c[t - 1].id == w.origin;
      }
    }
    Append3(o, c, a, b, w);
    Append3(o, c, w, a, b);
  }

  lemma Append3(o: set<Elem>, c: seq<Elem>, x: Elem, y: Elem, z: Elem)
    requires Closed(o, c) && x in o && y in o && z in o
    requires x.id != y.id && x.id != z.id && y.id != z.id
    requires forall u :: u in c ==> u.id != x.id && u.id != y.id && u.id != z.id
    requires x.origin == HeadId || exists u :: u in c && u.id == x.origin
    requires y.origin == HeadId || exists u :: u in c && u.id == y.origin
    requires z.origin == HeadId || exists u :: u in c && u.id == z.origin
    ensures Closed(o, c + [x, y, z])
  {
    var c1 := c + [x];
    var c2 := c1 + [y];
    Append(o, c, x);
    Append(o, c1, y);
    Append(o, c2, z);
    assert c + [x, y, z] == c2 + [z];
  }

  lemma Append(o: set<Elem>, es: seq<Elem>, e: Elem)
    requires Closed(o, es) && e in o && forall x :: x in es ==> x.id != e.id
    requires e.origin == HeadId || exists x :: x in es && x.id == e.origin
    ensures Closed(o, es + [e])
    ensures forall x :: x in es + [e] <==> x in es || x == e
  {
    ClosedAppend(o, es, e);
  }

  lemma ForkApart(o: set<Elem>, c: seq<Elem>, t: nat, a: Elem, b: Elem, w: Elem)
    requires Inserts(o) && Fork(o, c, t, a, b, w)
    ensures a.id != b.id && a.id != w.id && b.id != w.id
    ensures forall x :: x in c ==> x.id != a.id && x.id != b.id && x.id != w.id
  {
    var s := [Head] + c;
    ForkShape(o, c, t, a, b, w, s);
    ForkListApart(s, t, a, b, w, c);
  }

  lemma ForkListApart(s: Doc, t: nat, a: Elem, b: Elem, w: Elem, c: seq<Elem>)
    requires ForkList(s, t, a, b, w) && |s| == |c| + 1 && s[1..] == c
    ensures a.id != b.id && a.id != w.id && b.id != w.id
    ensures forall x :: x in c ==> x.id != a.id && x.id != b.id && x.id != w.id
  {
    forall i | 0 <= i < |c| ensures c[i].id != a.id && c[i].id != b.id && c[i].id != w.id {
      assert c[i] == s[i + 1];
    }
  }

  lemma ForkDiverges(o: set<Elem>, es: seq<Elem>, c: seq<Elem>, t: nat, a: Elem, b: Elem, w: Elem)
    returns (es1: seq<Elem>, es2: seq<Elem>)
    requires Inserts(o) && Causal(o, es) && Fork(o, c, t, a, b, w)
    ensures Causal(o, es1) && Causal(o, es2) && Deliver([Head], es1) != Deliver([Head], es2)
  {
    var p1, p2 := c + [a, b, w], c + [w, a, b];
    ForkClosed(o, c, t, a, b, w);
    ForkDelivered(o, c, t, a, b, w);
    Complete(o, es, p1);
    Complete(o, es, p2);
    es1, es2 := p1 + Rest(es, p1), p2 + Rest(es, p2);
    DeliverKeepsOrder([Head], p1, Rest(es, p1), b.id, w.id);
    DeliverKeepsOrder([Head], p2, Rest(es, p2), w.id, b.id);
    DeliverDistinct(o, es1);
    OppositeOrdersDiffer(Deliver([Head], es1), Deliver([Head], es2), b.id, w.id);
  }

  lemma ForkFromClimb(o: set<Elem>, es: seq<Elem>, path: seq<Elem>, a: Elem, b: Elem, w: Elem)
    returns (c: seq<Elem>, t: nat)
    requires Inserts(o) && Causal(o, es) && Climb(o, path)
    requires a in o && b in o && a.origin == path[0].id && b.origin == path[0].id && Before(a, b)
    requires w in o && w.origin == path[|path| - 1].origin && Before(path[|path| - 1], w)
    ensures Fork(o, c, t, a, b, w)
  {
    var i :| 0 <= i < |es| && es[i] == path[0];
    c := Ancestors(o, es, i);
    ClimbRetraces(o, c, path, |path| - 1);
    t := |c| - |path|;
  }

  lemma FindFork(o: set<Elem>, es: seq<Elem>) returns (c: seq<Elem>, t: nat, a: Elem, b: Elem, w: Elem)
    requires Inserts(o) && Causal(o, es) && !RightEdge(o)
    ensures Fork(o, c, t, a, b, w)
  {
    var path: seq<Elem>;
    path, w :| Climb(o, path) && Branching(o, path[0].id) && w in o && w.origin == path[|path| - 1].origin
               && Before(path[|path| - 1], w);
    a, b := Siblings(o, path[0].id);
    c, t := ForkFromClimb(o, es, path, a, b, w);
  }

  lemma Siblings(o: set<Elem>, id: bytes) returns (a: Elem, b: Elem)
    requires Inserts(o) && Branching(o, id)
    ensures a in o && b in o && a.origin == id && b.origin == id && Before(a, b)
  {
    a, b :| a in o && b in o && a != b && a.origin == id && b.origin == id;
    BeforeTotal(a, b);
    if !Before(a, b) {
      a, b := b, a;
    }
  }

  /** Every two causal deliveries of these inserts (with any deletes) leave the same list. */
  ghost predicate Converges(o: set<Elem>) {
    forall d: set<bytes>, ops: seq<Op>, ops': seq<Op> | Delivery(o, d, ops) && Delivery(o, d, ops')
      :: Run([Head], ops) == Run([Head], ops')
  }

  /** insertOrdered makes a deliverable set of inserts order-independent exactly when the set branches
      only on the right edge of its causal tree. */
  lemma ConvergesIffRightEdge(o: set<Elem>, d: set<bytes>, ops: seq<Op>)
    requires Inserts(o) && Delivery(o, d, ops)
    ensures Converges(o) <==> RightEdge(o)
  {
    if RightEdge(o) {
      forall d: set<bytes>, ops: seq<Op>, ops': seq<Op> | Delivery(o, d, ops) && Delivery(o, d, ops')
        ensures Run([Head], ops) == Run([Head], ops')
      {
        RightEdgeConverges(o, d, ops, ops');
      }
    } else {
      var es := DeliveryIsCausal(o, d, ops);
      var c, t, a, b, w := FindFork(o, es);
      var es1, es2 := ForkDiverges(o, es, c, t, a, b, w);
      CausalIsDelivery(o, es1);
      CausalIsDelivery(o, es2);
      DeliverIsRun([Head], es1);
      DeliverIsRun([Head], es2);
    }
  }

  /** The plain reading: if only the head has several causal children, delivery order never matters. */
  lemma HeadOnlyBranching(o: set<Elem>)
    requires Inserts(o) && forall id :: Branching(o, id) ==> id == HeadId
    ensures Converges(o)
  {
    assert RightEdge(o);
    forall d: set<bytes>, ops: seq<Op>, ops': seq<Op> | Delivery(o, d, ops) && Delivery(o, d, ops')
      ensures Run([Head], ops) == Run([Head], ops')
    {
      RightEdgeConverges(o, d, ops, ops');
    }
  }
}
