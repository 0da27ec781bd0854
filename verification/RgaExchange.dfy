/** Two replicas that edited apart and then exchange: when do they end with the same document? */
module RgaExchange {
  import opened RgaModel
  import opened RgaMerge
  import opened RgaCatchUp

  /** No node in common: the replicas edited independently. */
  ghost predicate Disjoint(s: Doc, t: Doc) {
    forall i, j :: 1 <= i < |s| && 1 <= j < |t| ==> s[i].id != t[j].id && !SameKey(s[i], t[j])
  }

  // t[1..j], each node re-anchored at the one before it.
  function Links(t: Doc, i: nat, j: nat): (r: seq<Elem>)
    requires 1 <= i <= j <= |t|
    ensures |r| == j - i
    ensures forall k :: 0 <= k < |r| ==> r[k] == Anchored(t, i + k)
  {
    seq(j - i, k requires 0 <= k < j - i => Anchored(t, i + k))
  }

  // Where the whole of t lands in s: by its first node, among the children of the head.
  function Landing(s: Doc, t: Doc): (p: nat)
    requires |s| > 0 && |t| > 0
    ensures 1 <= p <= |s|
  {
    if |t| == 1 then |s| else InsertPos(s, 0, Anchored(t, 1))
  }

  lemma FirstIsHeadChild(s: Doc)
    requires WellFormed(s) && |s| > 1
    ensures s[1].origin == HeadId
  {
    assert Par(s, 1) == 0;
  }

  lemma AbsentIds(s: Doc, t: Doc)
    requires WellFormed(s) && WellFormed(t) && Disjoint(s, t)
    ensures forall j :: 1 <= j < |t| ==> !Has(s, t[j].id)
    ensures Bury(s, t) == s
  {
    forall j | 1 <= j < |t|
      ensures !Has(s, t[j].id)
    {
      assert t[j].id != t[0].id;
    }
    forall i | 0 <= i < |s|
      ensures !Buried(t, s[i].id)
    {
      FindAt(t, 0);
      assert i > 0 ==> forall j :: 1 <= j < |t| ==> t[j].id != s[i].id;
    }
  }

  /** A disjoint sender arrives as one contiguous block. */
  lemma {:induction false} MergeDisjoint(s: Doc, t: Doc, j: nat)
    requires WellFormed(s) && WellFormed(t) && Disjoint(s, t) && 2 <= j <= |t|
    ensures var p := Landing(s, t); MergeUpTo(s, t, j) == s[..p] + Links(t, 1, j) + s[p..]
  {
    if j == 2 {
      FirstLink(s, t);
    } else {
      MergeDisjoint(s, t, j - 1);
      NextLink(s, t, j, Landing(s, t), MergeUpTo(s, t, j - 1));
    }
  }

  lemma FirstLink(s: Doc, t: Doc)
    requires WellFormed(s) && WellFormed(t) && Disjoint(s, t) && 2 <= |t|
    ensures var p := Landing(s, t); MergeUpTo(s, t, 2) == s[..p] + Links(t, 1, 2) + s[p..]
  {
    AbsentIds(s, t);
    FindAt(s, 0);
    assert MergeUpTo(s, t, 1) == s;
  }

  lemma NextLink(s: Doc, t: Doc, j: nat, p: nat, m: Doc)
    requires WellFormed(s) && WellFormed(t) && Disjoint(s, t) && 3 <= j <= |t| && 1 <= p <= |s|
    requires m == MergeUpTo(s, t, j - 1) && m == s[..p] + Links(t, 1, j - 1) + s[p..]
    ensures MergeUpTo(s, t, j) == s[..p] + Links(t, 1, j) + s[p..]
  {
    var e := Anchored(t, j - 1);
    AbsentIds(s, t);
    BlockGrows(s, t, j - 1, p, m);
    var r := m[..p + j - 2] + [e] + m[p + j - 2..];
    PlaceFirst(m, p + j - 3, e, r);
    assert MergeUpTo(s, t, j) == Place(m, e);
    LongerBlock(s, t, j, p, m, r);
  }

  lemma LongerBlock(s: Doc, t: Doc, j: nat, p: nat, m: Doc, r: Doc)
    requires 3 <= j <= |t| && 1 <= p <= |s| && m == s[..p] + Links(t, 1, j - 1) + s[p..]
    requires r == m[..p + j - 2] + [Anchored(t, j - 1)] + m[p + j - 2..]
    ensures r == s[..p] + Links(t, 1, j) + s[p..]
  {
    assert m[..p + j - 2] == s[..p] + Links(t, 1, j - 1);
    assert m[p + j - 2..] == s[p..];
    assert Links(t, 1, j) == Links(t, 1, j - 1) + [Anchored(t, j - 1)];
  }

  lemma SplicedDistinct(s: Doc, b: seq<Elem>, p: nat, m: Doc)
    requires p <= |s| && Distinct(s) && Distinct(b) && m == s[..p] + b + s[p..]
    requires forall i, k :: 0 <= i < |s| && 0 <= k < |b| ==> s[i].id != b[k].id
    ensures Distinct(m)
    ensures forall i :: 0 <= i < |m| ==>
              m[i] == if i < p then s[i] else if i < p + |b| then b[i - p] else s[i - |b|]
  {
  }

  lemma LinksDistinct(s: Doc, t: Doc, i: nat, j: nat)
    requires WellFormed(s) && WellFormed(t) && Disjoint(s, t) && 1 <= i <= j <= |t|
    ensures Distinct(Links(t, i, j))
    ensures forall x, k :: 0 <= x < |s| && 0 <= k < j - i ==> s[x].id != Links(t, i, j)[k].id
  {
    forall x, k | 0 <= x < |s| && 0 <= k < j - i
      ensures s[x].id != Links(t, i, j)[k].id
    {
      assert t[0].id != t[i + k].id;
    }
  }

  // Inside the block, the last link has no child yet.
  lemma BlockGrows(s: Doc, t: Doc, j: nat, p: nat, m: Doc)
    requires WellFormed(s) && WellFormed(t) && Disjoint(s, t) && 2 <= j < |t| && 1 <= p <= |s|
    requires m == s[..p] + Links(t, 1, j) + s[p..]
    ensures Distinct(m) && m[p + j - 2].id == t[j - 1].id
    ensures p + j - 1 < |m| ==> m[p + j - 1].origin != t[j - 1].id
  {
    LinksDistinct(s, t, 1, j);
    SplicedDistinct(s, Links(t, 1, j), p, m);
    assert m[p + j - 2] == Anchored(t, j - 1);
    if p + j - 1 < |m| {
      assert m[p + j - 1] == s[p];
      AbsentIds(s, t);
      NoChildOfAbsent(s, t[j - 1].id);
    }
  }

  // ---------- one after the other ----------

  // m is s with the whole of t spliced in at p as one block.
  ghost predicate Layout(s: Doc, t: Doc, p: nat, m: Doc) {
    && |s| > 0 && |t| > 0 && 1 <= p <= |s| && |m| == |s| + |t| - 1
    && (forall i :: 0 <= i < p ==> m[i] == s[i])
    && (forall i :: p <= i < p + |t| - 1 ==> m[i] == Anchored(t, i - p + 1))
    && (forall i :: p + |t| - 1 <= i < |m| ==> m[i] == s[i - (|t| - 1)])
    && Distinct(m)
  }

  lemma MergeLayout(s: Doc, t: Doc)
    requires WellFormed(s) && WellFormed(t) && Disjoint(s, t)
    ensures Layout(s, t, Landing(s, t), Merge(s, t))
  {
    var p := Landing(s, t);
    var m := Merge(s, t);
    AbsentIds(s, t);
    if |t| > 1 {
      MergeDisjoint(s, t, |t|);
      LinksDistinct(s, t, 1, |t|);
      SplicedLayout(s, t, p, m);
    }
  }

  lemma SplicedLayout(s: Doc, t: Doc, p: nat, m: Doc)
    requires |t| > 0 && 1 <= p <= |s| && Distinct(s) && m == s[..p] + Links(t, 1, |t|) + s[p..]
    requires Distinct(Links(t, 1, |t|))
    requires forall i, k :: 0 <= i < |s| && 0 <= k < |t| - 1 ==> s[i].id != Links(t, 1, |t|)[k].id
    ensures Layout(s, t, p, m)
  {
    SplicedDistinct(s, Links(t, 1, |t|), p, m);
  }

  // In the layout, t's nodes are in t's order.
  lemma LayoutCovers(s: Doc, t: Doc, p: nat, m: Doc)
    requires WellFormed(s) && WellFormed(t) && Layout(s, t, p, m)
    ensures Rooted(m) && Covers(m, t) && Keeps(t, m)
  {
    forall x | 0 <= x < |t| ensures Find(m, t[x].id) == if x == 0 then 0 else p + x - 1 {
      LayoutFind(s, t, p, m, x);
    }
    forall x, j | 1 <= x < |t| && 1 <= j < |m| && t[x].id == m[j].id
      ensures SameMint(t[x], m[j]) && (t[x].deleted ==> m[j].deleted)
    {
      FindAt(m, j);
      assert m[p + x - 1] == Anchored(t, x);
    }
  }

  lemma LayoutFind(s: Doc, t: Doc, p: nat, m: Doc, x: nat)
    requires WellFormed(s) && WellFormed(t) && Layout(s, t, p, m) && x < |t|
    ensures Find(m, t[x].id) == if x == 0 then 0 else p + x - 1
  {
    if x == 0 {
      FindAt(m, 0);
    } else {
      assert m[p + x - 1] == Anchored(t, x);
      FindAt(m, p + x - 1);
    }
  }

  // Only at the very front does a foreign node of the layout stand behind a node of t with a child there.
  lemma LayoutFits(s: Doc, t: Doc, p: nat, m: Doc, j: nat)
    requires WellFormed(s) && WellFormed(t) && Disjoint(s, t) && Layout(s, t, p, m) && p == Landing(s, t) && 1 <= j < |m|
    ensures Fits(t, m, j)
  {
    var id := m[j - 1].id;
    forall x | 0 <= x < |t| - 1 && ChildBehind(t, x, id) && !Has(t, m[j].id) ensures !Before(t[x + 1], m[j]) {
      LayoutFind(s, t, p, m, x);
      FindAt(m, j - 1);
      if x > 0 {
        KnownInBlock(t, p, m, j, x + 1);
      } else {
        FrontFits(s, t, p, m);
      }
    }
  }

  lemma KnownInBlock(t: Doc, p: nat, m: Doc, j: nat, x: nat)
    requires 1 <= x < |t| && 1 <= p && j == p + x - 1 < |m| && m[j] == Anchored(t, x)
    ensures Has(t, m[j].id)
  {
    assert t[x].id == m[j].id;
  }

  lemma FrontFits(s: Doc, t: Doc, p: nat, m: Doc)
    requires WellFormed(s) && WellFormed(t) && Layout(s, t, p, m) && p == Landing(s, t) && |t| > 1
    ensures !Has(t, m[1].id) ==> !Before(t[1], m[1])
  {
    if p == 1 {
      KnownInBlock(t, p, m, 1, 1);
    } else {
      FirstIsHeadChild(s);
      assert m[1] == s[1] && Before(s[1], Anchored(t, 1));
      BeforeAsymmetric(s[1], t[1]);
    }
  }

  /** Whatever two independent replicas hold, if one merges the other and then is merged back, both show the
      same nodes in the same order with the same tombstones. */
  lemma SequentialExchange(s: Doc, t: Doc)
    requires WellFormed(s) && WellFormed(t) && Disjoint(s, t)
    ensures Shape(Merge(t, Merge(s, t))) == Shape(Merge(s, t))
  {
    var m := Merge(s, t);
    var p := Landing(s, t);
    MergeLayout(s, t);
    LayoutCovers(s, t, p, m);
    forall j | 1 <= j < |m| ensures Fits(t, m, j) {
      LayoutFits(s, t, p, m, j);
    }
    CatchUpIff(t, m);
  }

  // ---------- replicas with nodes in common ----------

  /** The same node under each ID that both hold. */
  ghost predicate SameNodes(s: Doc, t: Doc) {
    forall i, j :: 1 <= i < |s| && 1 <= j < |t| && s[i].id == t[j].id ==> SameMint(s[i], t[j])
  }

  lemma MergeCovers(s: Doc, t: Doc)
    requires WellFormed(s) && WellFormed(t) && Compatible(s, t) && KeysApart(t) && SameNodes(s, t)
    ensures Rooted(Merge(s, t)) && Covers(Merge(s, t), t)
  {
    var m := Merge(s, t);
    MergeInvariant(s, t, |t|);
    forall i, j | 1 <= i < |t| && 1 <= j < |m| && t[i].id == m[j].id
      ensures SameMint(t[i], m[j]) && (t[i].deleted ==> m[j].deleted)
    {
      MergedNode(s, t, j);
      FindAt(t, i);
      assert m[j].id != m[0].id;
    }
  }

  /** For any two mergeable replicas, with or without nodes in common: one merges the other and is merged
      back, and both show the same document, if and only if the first merge kept the other's order and every
      node it has that is news to the other fits. */
  lemma ExchangeIff(s: Doc, t: Doc)
    requires WellFormed(s) && WellFormed(t) && Compatible(s, t) && KeysApart(t) && SameNodes(s, t)
    ensures var m := Merge(s, t);
            Shape(Merge(t, m)) == Shape(m) <==> Keeps(t, m) && FitsBefore(t, m, |m|)
  {
    MergeCovers(s, t);
    CatchUpIff(t, Merge(s, t));
  }

  // t with one more node, at k.
  ghost predicate Grown(t: Doc, k: nat, n: Elem, t1: Doc) {
    1 <= k <= |t| && t1 == InsertAt(t, k, n) && !Has(t, n.id)
  }

  // How the writer's list looks to the reader: the reader's own nodes around a new one at k.
  ghost predicate Ahead(s: Doc, k: nat, n: Elem, t1: Doc) {
    && 1 <= k <= |s| && |t1| == |s| + 1 && t1[k] == n && Distinct(t1)
    && (forall i :: 0 <= i < k ==> SameNode(s, i, t1[i]))
    && (forall i :: k < i < |t1| ==> SameNode(s, i - 1, t1[i]))
  }

  ghost predicate SameNode(s: Doc, i: nat, x: Elem)
    requires i < |s|
  {
    s[i].id == x.id && (i > 0 ==> SameFace(s[i], x))
  }

  lemma GrownAhead(s: Doc, t: Doc, k: nat, n: Elem, t1: Doc)
    requires Rooted(s) && Rooted(t) && Shape(s) == Shape(t) && Grown(t, k, n, t1)
    ensures |s| == |t| && Ahead(s, k, n, t1) && t1[0].id == HeadId
  {
    assert |Shape(s)| == |Shape(t)|;
    FindInserted(t, k, n, n.id);
    forall i | 0 <= i < |s| ensures SameNode(s, i, t[i]) {
      assert i > 0 ==> Shape(s)[i - 1] == Shape(t)[i - 1];
    }
  }

  lemma AheadFind(s: Doc, k: nat, n: Elem, t1: Doc, i: nat)
    requires Ahead(s, k, n, t1) && i < |s|
    ensures Find(t1, s[i].id) == if i < k then i else i + 1
  {
    var j := if i < k then i else i + 1;
    assert SameNode(s, i, t1[j]);
    FindAt(t1, j);
  }

  lemma AheadCovers(s: Doc, k: nat, n: Elem, t1: Doc)
    requires Rooted(s) && Ahead(s, k, n, t1)
    ensures Covers(t1, s) && Keeps(s, t1)
  {
    forall i | 0 <= i < |s| ensures Find(t1, s[i].id) == if i < k then i else i + 1 {
      AheadFind(s, k, n, t1, i);
    }
    forall i, j | 1 <= i < |s| && 1 <= j < |t1| && s[i].id == t1[j].id
      ensures SameMint(s[i], t1[j]) && (s[i].deleted ==> t1[j].deleted)
    {
      FindAt(t1, j);
      assert SameNode(s, i, t1[j]);
    }
  }

  // Only the new node is news, and only the reader's node behind its place matters.
  lemma AheadFits(s: Doc, k: nat, n: Elem, t1: Doc, j: nat)
    requires Rooted(s) && Ahead(s, k, n, t1) && 1 <= j < |t1|
    ensures j != k ==> Fits(s, t1, j)
    ensures Fits(s, t1, k) <==> k == |s| || s[k].origin != s[k - 1].id || !Before(s[k], n)
  {
    if j != k {
      var i := if j < k then j else j - 1;
      assert SameNode(s, i, t1[j]);
      assert s[i].id == t1[j].id;
    }
    var id := t1[k - 1].id;
    assert SameNode(s, k - 1, t1[k - 1]);
    NewIsNews(s, k, n, t1);
    assert k < |s| && s[k].origin == s[k - 1].id ==> ChildBehind(s, k - 1, id);
    forall p | 0 <= p < |s| - 1 && ChildBehind(s, p, id) ensures p == k - 1 {
    }
  }

  lemma NewIsNews(s: Doc, k: nat, n: Elem, t1: Doc)
    requires Ahead(s, k, n, t1)
    ensures !Has(s, n.id)
  {
    forall i | 0 <= i < |s| ensures s[i].id != n.id {
      assert SameNode(s, i, t1[if i < k then i else i + 1]);
    }
  }

  /** A reader in step with a writer that inserts one node ends in step after the next merge if and only if
      the node comes last, or the reader has no child of the node ahead of it next, or that child does not
      sort before it. */
  lemma OneInsertIff(s: Doc, t: Doc, k: nat, n: Elem, t1: Doc)
    requires WellFormed(s) && WellFormed(t) && Shape(s) == Shape(t) && Grown(t, k, n, t1)
    ensures |s| == |t|
    ensures Shape(Merge(s, t1)) == Shape(t1) <==> k == |s| || s[k].origin != s[k - 1].id || !Before(s[k], n)
  {
    GrownAhead(s, t, k, n, t1);
    AheadCovers(s, k, n, t1);
    CatchUpIff(s, t1);
    forall j | 1 <= j < |t1| && j != k ensures Fits(s, t1, j) {
      AheadFits(s, k, n, t1, j);
    }
    AheadFits(s, k, n, t1, k);
  }

  /** A reader that has only ever merged this writer keeps up if and only if the new node comes last or the
      node behind it does not sort before it. */
  lemma ReaderKeepsUpIff(t: Doc, k: nat, n: Elem, t1: Doc)
    requires WellFormed(t) && Grown(t, k, n, t1)
    ensures Shape(Merge(Merge([Head], t), t1)) == Shape(t1) <==> k == |t| || !Before(t[k], n)
  {
    var s := Merge([Head], t);
    ReaderIsChain(t, [Head], s);
    OneInsertIff(s, t, k, n, t1);
  }

  // A list merged from nothing: the same nodes, each hanging off the one before it.
  lemma ReaderIsChain(t: Doc, h: Doc, s: Doc)
    requires WellFormed(t) && h == [Head] && s == Merge(h, t)
    ensures |s| == |t| && WellFormed(s) && Shape(s) == Shape(t)
    ensures forall i :: 1 <= i < |t| ==> s[i] == Anchored(t, i)
  {
    HeadLayout(t, h, s);
    EmptyLayout(h, t, Landing(h, t), s);
    ChainWellFormed(t, s);
    FacesMakeShape(s, t);
  }

  lemma HeadLayout(t: Doc, h: Doc, s: Doc)
    requires WellFormed(t) && h == [Head] && s == Merge(h, t)
    ensures Layout(h, t, Landing(h, t), s)
  {
    FindAt(h, 0);
    MergeLayout(h, t);
  }

  lemma EmptyLayout(h: Doc, t: Doc, p: nat, s: Doc)
    requires |h| == 1 && Layout(h, t, p, s)
    ensures |s| == |t| && s[0] == h[0] && forall i :: 1 <= i < |t| ==> s[i] == Anchored(t, i)
  {
    assert p == 1;
    forall i | 1 <= i < |t| ensures s[i] == Anchored(t, i) {
      assert s[i] == Anchored(t, i - p + 1);
    }
  }

  lemma ChainWellFormed(t: Doc, s: Doc)
    requires WellFormed(t) && |s| == |t| && s[0].id == HeadId && forall i :: 1 <= i < |t| ==> s[i] == Anchored(t, i)
    ensures WellFormed(s)
  {
    forall i | 0 <= i < |s| ensures s[i].id == t[i].id {
    }
    forall i | 1 <= i < |s| ensures Par(s, i) < i {
      FindAt(s, i - 1);
    }
  }

  // ---------- both at once, from snapshots ----------

  // Every child of the head in s sorts before x.
  ghost predicate AllBefore(s: Doc, x: Elem) {
    forall i :: 1 <= i < |s| && s[i].origin == HeadId ==> Before(s[i], x)
  }

  // t lands behind all of s exactly when nothing at s's top level sorts after t's first node, and in
  // front of all of s exactly when s's first node does.
  lemma LandingEnds(s: Doc, t: Doc)
    requires WellFormed(s) && WellFormed(t) && Disjoint(s, t) && |s| > 1 && |t| > 1
    ensures Landing(s, t) == |s| <==> AllBefore(s, t[1])
    ensures Landing(s, t) == 1 <==> Before(t[1], s[1])
  {
    FirstIsHeadChild(s);
    BeforeAsymmetric(s[1], t[1]);
    BeforeTotal(s[1], t[1]);
    var p := Landing(s, t);
    if p < |s| {
      assert s[p].origin == HeadId && !Before(s[p], t[1]);
    }
  }

  // Both merges agree when s goes first as a whole.
  lemma WholeFirst(s: Doc, t: Doc)
    requires WellFormed(s) && WellFormed(t) && Disjoint(s, t)
    requires Landing(s, t) == |s| && Landing(t, s) == 1
    ensures Shape(Merge(s, t)) == Shape(Merge(t, s))
  {
    MergeLayout(s, t);
    MergeLayout(t, s);
    SameLayout(s, t, Merge(s, t), Merge(t, s));
  }

  lemma SameLayout(s: Doc, t: Doc, m: Doc, m': Doc)
    requires Layout(s, t, |s|, m) && Layout(t, s, 1, m')
    ensures Shape(m) == Shape(m')
  {
    forall i | 1 <= i < |m| ensures SameFace(m[i], m'[i]) {
      if i < |s| {
        assert m'[i] == Anchored(s, i);
      } else {
        assert m[i] == Anchored(t, i - |s| + 1) && m'[i] == t[i - (|s| - 1)];
      }
    }
    FacesMakeShape(m, m');
  }

  // Otherwise t's first node and one of s's nodes compete for the same place.
  lemma SplitApart(s: Doc, t: Doc)
    requires WellFormed(s) && WellFormed(t) && Disjoint(s, t) && |t| > 1
    requires 1 < Landing(s, t) < |s| && Landing(t, s) == 1
    ensures Shape(Merge(s, t)) != Shape(Merge(t, s))
  {
    SplitAt(s, t, Landing(s, t), Merge(s, t), Merge(t, s));
  }

  lemma SplitAt(s: Doc, t: Doc, p: nat, m: Doc, m': Doc)
    requires WellFormed(s) && WellFormed(t) && Disjoint(s, t) && |t| > 1 && m == Merge(s, t) && m' == Merge(t, s)
    requires 1 < p == Landing(s, t) < |s| && Landing(t, s) == 1
    ensures p < |m| && p < |m'| && m[p].id == t[1].id && m'[p].id == s[p].id && Shape(m) != Shape(m')
  {
    MergeLayout(s, t);
    MergeLayout(t, s);
    assert m[p] == Anchored(t, 1);
    assert m'[p] == Anchored(s, p);
    assert Shape(m)[p - 1].id == t[1].id;
    assert Shape(m')[p - 1].id == s[p].id;
  }

  /** Two independent replicas that merge each other's snapshots agree exactly when one of them has
      its whole top level before the other's first node (or is empty). */
  lemma SnapshotExchange(s: Doc, t: Doc)
    requires WellFormed(s) && WellFormed(t) && Disjoint(s, t)
    ensures Shape(Merge(s, t)) == Shape(Merge(t, s))
            <==> |s| == 1 || |t| == 1 || AllBefore(s, t[1]) || AllBefore(t, s[1])
  {
    if |s| == 1 {
      assert Landing(t, s) == |t|;
      assert Landing(s, t) == 1;
      WholeFirst(t, s);
    } else if |t| == 1 {
      WholeFirst(s, t);
    } else {
      LandingEnds(s, t);
      LandingEnds(t, s);
      BeforeAsymmetric(s[1], t[1]);
      BeforeTotal(s[1], t[1]);
      if Before(s[1], t[1]) {
        if AllBefore(s, t[1]) {
          WholeFirst(s, t);
        } else {
          SplitApart(s, t);
          HeadBefore(t, s);
        }
      } else {
        if AllBefore(t, s[1]) {
          WholeFirst(t, s);
        } else {
          SplitApart(t, s);
          HeadBefore(s, t);
        }
      }
    }
  }

  // A replica whose first node sorts later is not all before the other.
  lemma HeadBefore(t: Doc, s: Doc)
    requires WellFormed(t) && |t| > 1 && |s| > 1 && Before(s[1], t[1])
    ensures !AllBefore(t, s[1])
  {
    FirstIsHeadChild(t);
    BeforeAsymmetric(s[1], t[1]);
  }

  /** Append-only histories: when each replica has a single top-level node, snapshots always agree. */
  lemma AppendersAgree(s: Doc, t: Doc)
    requires WellFormed(s) && WellFormed(t) && Disjoint(s, t)
    requires forall i :: 2 <= i < |s| ==> s[i].origin != HeadId
    requires forall j :: 2 <= j < |t| ==> t[j].origin != HeadId
    ensures Shape(Merge(s, t)) == Shape(Merge(t, s)) == Shape(Merge(t, Merge(s, t)))
  {
    SnapshotExchange(s, t);
    SequentialExchange(s, t);
    if |s| > 1 && |t| > 1 {
      BeforeTotal(s[1], t[1]);
    }
  }
}
