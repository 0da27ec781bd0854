/** A reader that merges any number of independently edited replicas: the order of the merges is
    invisible in the result. */
module RgaGossip {
  import opened RgaModel
  import opened RgaMerge
  import opened RgaExchange

  function Fold(f: (Doc, Doc) -> Doc, s: Doc, ts: seq<Doc>): Doc {
    if ts == [] then s else f(Fold(f, s, ts[..|ts| - 1]), ts[|ts| - 1])
  }

  function Merging(): (Doc, Doc) -> Doc { (a: Doc, b: Doc) => Merge(a, b) }

  function MergeAll(s: Doc, ts: seq<Doc>): Doc { Fold(Merging(), s, ts) }

  ghost predicate Sources(s: Doc, ts: seq<Doc>) {
    && (forall i :: 0 <= i < |ts| ==> WellFormed(ts[i]) && KeysApart(ts[i]) && Disjoint(s, ts[i]))
    && (forall i, j :: 0 <= i < j < |ts| ==> Disjoint(ts[i], ts[j]))
  }

  // ---------- one merge ----------

  // The list with a disjoint source spliced in whole.
  function Spliced(s: Doc, p: nat, t: Doc): Doc
    requires p <= |s| && |t| > 0
  {
    s[..p] + Links(t, 1, |t|) + s[p..]
  }

  lemma MergeSpliced(s: Doc, t: Doc)
    requires WellFormed(s) && WellFormed(t) && Disjoint(s, t)
    ensures Merge(s, t) == Spliced(s, Landing(s, t), t)
  {
    if |t| > 1 {
      MergeDisjoint(s, t, |t|);
    } else {
      AbsentIds(s, t);
      assert s[..|s|] == s;
    }
  }

  lemma MergeStaysWellFormed(s: Doc, t: Doc)
    requires WellFormed(s) && WellFormed(t) && Disjoint(s, t) && KeysApart(t)
    ensures WellFormed(Merge(s, t))
  {
    MergeInvariant(s, t, |t|);
  }

  // What is apart from both is apart from the merge.
  lemma MergeStaysDisjoint(s: Doc, t: Doc, u: Doc)
    requires WellFormed(s) && WellFormed(t) && Disjoint(s, t) && Disjoint(s, u) && Disjoint(t, u)
    ensures Disjoint(Merge(s, t), u)
  {
    MergeLayout(s, t);
    LayoutDisjoint(s, t, Landing(s, t), Merge(s, t), u);
  }

  lemma LayoutDisjoint(s: Doc, t: Doc, p: nat, m: Doc, u: Doc)
    requires Layout(s, t, p, m) && Disjoint(s, u) && Disjoint(t, u)
    ensures Disjoint(m, u)
  {
    forall i, j | 1 <= i < |m| && 1 <= j < |u| ensures m[i].id != u[j].id && !SameKey(m[i], u[j]) {
      if i < p {
        assert m[i] == s[i];
      } else if i < p + |t| - 1 {
        assert m[i] == Anchored(t, i - p + 1);
      } else {
        assert m[i] == s[i - (|t| - 1)];
      }
    }
  }

  // ---------- where a source lands ----------

  // p is where a first node x goes among the children of the head.
  ghost predicate Lands(s: Doc, x: Elem, p: nat) {
    && 1 <= p <= |s|
    && (p < |s| ==> s[p].origin == HeadId && !Before(s[p], x))
    && (forall i :: 1 <= i < p && s[i].origin == HeadId ==> Before(s[i], x))
  }

  lemma LandingLands(s: Doc, t: Doc, p: nat)
    requires WellFormed(s) && |t| > 1
    ensures Lands(s, t[1], p) <==> p == Landing(s, t)
  {
    if |s| > 1 {
      FirstIsHeadChild(s);
    }
    LandsOnce(s, t[1], p, Landing(s, t));
  }

  lemma LandsOnce(s: Doc, x: Elem, p: nat, q: nat)
    requires Lands(s, x, q)
    ensures Lands(s, x, p) ==> p == q
  {
  }

  // Of two sources, the one whose first node sorts first lands first; each lands where the other leaves room.
  lemma LandBoth(s: Doc, t: Doc, u: Doc, p: nat, q: nat)
    requires WellFormed(s) && |t| > 1 && |u| > 1 && Lands(s, t[1], p) && Lands(s, u[1], q) && Before(t[1], u[1])
    requires WellFormed(t) && WellFormed(u)
    ensures p <= q
    ensures Lands(Spliced(s, p, t), u[1], q + |t| - 1) && Lands(Spliced(s, q, u), t[1], p)
  {
    if q < p {
      assert s[q].origin == HeadId && Before(s[q], t[1]);
      BeforeTransitive(s[q], t[1], u[1]);
    }
    LandBehind(s, t, u[1], p, q);
    LandAhead(s, u, t[1], p, q);
  }

  lemma LandBehind(s: Doc, t: Doc, x: Elem, p: nat, q: nat)
    requires WellFormed(t) && |t| > 1 && Lands(s, x, q) && 1 <= p <= q && Before(t[1], x)
    ensures Lands(Spliced(s, p, t), x, q + |t| - 1)
  {
    var m := Spliced(s, p, t);
    forall i | 1 <= i < q + |t| - 1 && m[i].origin == HeadId ensures Before(m[i], x) {
      if p <= i < p + |t| - 1 {
        assert m[i] == Anchored(t, i - p + 1);
        LinkOrigin(t, i - p + 1);
      } else {
        assert m[i] == s[if i < p then i else i - (|t| - 1)];
      }
    }
  }

  // Of a spliced source only the first node hangs off the head.
  lemma LinkOrigin(t: Doc, x: nat)
    requires WellFormed(t) && 1 <= x < |t|
    ensures Anchored(t, x).origin == HeadId <==> x == 1
  {
    assert x > 1 ==> t[x - 1].id != t[0].id;
  }

  lemma LandAhead(s: Doc, u: Doc, x: Elem, p: nat, q: nat)
    requires WellFormed(u) && |u| > 1 && Lands(s, x, p) && p <= q <= |s| && Before(x, u[1])
    ensures Lands(Spliced(s, q, u), x, p)
  {
    var m := Spliced(s, q, u);
    assert forall i :: 0 <= i < p ==> m[i] == s[i];
    if p == q {
      assert m[p] == Anchored(u, 1);
      BeforeAsymmetric(x, u[1]);
    } else {
      assert m[p] == s[p];
    }
  }

  // ---------- two merges commute ----------

  lemma SplicedTwice(s: Doc, t: Doc, u: Doc, p: nat, q: nat)
    requires p <= q <= |s| && |t| > 0 && |u| > 0
    ensures Spliced(Spliced(s, p, t), q + |t| - 1, u) == Spliced(Spliced(s, q, u), p, t)
  {
    var a, b, c, x, y := s[..p], s[p..q], s[q..], Links(t, 1, |t|), Links(u, 1, |u|);
    assert s == a + b + c;
    var m, m' := Spliced(s, p, t), Spliced(s, q, u);
    assert m == a + x + (b + c) && m' == (a + b) + y + c;
    assert m[..q + |t| - 1] == a + x + b && m[q + |t| - 1..] == c;
    assert m'[..p] == a && m'[p..] == b + y + c;
    assert (a + x + b) + y + c == a + x + (b + y + c);
  }

  lemma MergesCommute(s: Doc, t: Doc, u: Doc)
    requires WellFormed(s) && WellFormed(t) && WellFormed(u) && KeysApart(t) && KeysApart(u)
    requires Disjoint(s, t) && Disjoint(s, u) && Disjoint(t, u)
    ensures Merge(Merge(s, t), u) == Merge(Merge(s, u), t)
  {
    if |t| == 1 || |u| == 1 {
      EmptyCommutes(s, t, u);
    } else {
      BeforeTotal(t[1], u[1]);
      DisjointSymmetric(t, u);
      if Before(t[1], u[1]) {
        OrderedCommute(s, t, u);
      } else {
        OrderedCommute(s, u, t);
      }
    }
  }

  lemma EmptyMerge(s: Doc, t: Doc)
    requires WellFormed(s) && WellFormed(t) && |t| == 1
    ensures Merge(s, t) == s
  {
    MergeSpliced(s, t);
    assert s[..|s|] + [] + s[|s|..] == s;
  }

  lemma EmptyCommutes(s: Doc, t: Doc, u: Doc)
    requires WellFormed(s) && WellFormed(t) && WellFormed(u) && KeysApart(t) && KeysApart(u)
    requires Disjoint(s, t) && Disjoint(s, u) && (|t| == 1 || |u| == 1)
    ensures Merge(Merge(s, t), u) == Merge(Merge(s, u), t)
  {
    MergeStaysWellFormed(s, t);
    MergeStaysWellFormed(s, u);
    if |t| == 1 {
      EmptyMerge(s, t);
      EmptyMerge(Merge(s, u), t);
    } else {
      EmptyMerge(s, u);
      EmptyMerge(Merge(s, t), u);
    }
  }

  lemma DisjointSymmetric(t: Doc, u: Doc)
    requires Disjoint(t, u)
    ensures Disjoint(u, t)
  {
    forall i, j | 1 <= i < |u| && 1 <= j < |t| ensures u[i].id != t[j].id && !SameKey(u[i], t[j]) {
      assert t[j].id != u[i].id;
    }
  }

  lemma OrderedCommute(s: Doc, t: Doc, u: Doc)
    requires WellFormed(s) && WellFormed(t) && WellFormed(u) && KeysApart(t) && KeysApart(u) && |t| > 1 && |u| > 1
    requires Disjoint(s, t) && Disjoint(s, u) && Disjoint(t, u) && Disjoint(u, t) && Before(t[1], u[1])
    ensures Merge(Merge(s, t), u) == Merge(Merge(s, u), t)
  {
    var p, q := Landing(s, t), Landing(s, u);
    LandingLands(s, t, p);
    LandingLands(s, u, q);
    LandBoth(s, t, u, p, q);
    SplicedTwice(s, t, u, p, q);
    var r := Spliced(Spliced(s, q, u), p, t);
    OneThenOther(s, t, u, p, q + |t| - 1, r);
    OneThenOther(s, u, t, q, p, r);
  }

  lemma OneThenOther(s: Doc, t: Doc, u: Doc, p: nat, q: nat, r: Doc)
    requires WellFormed(s) && WellFormed(t) && WellFormed(u) && KeysApart(t) && |u| > 1 && p == Landing(s, t)
    requires Disjoint(s, t) && Disjoint(s, u) && Disjoint(t, u) && Lands(Spliced(s, p, t), u[1], q)
    requires r == Spliced(Spliced(s, p, t), q, u)
    ensures Merge(Merge(s, t), u) == r
  {
    MergeSpliced(s, t);
    MergeStaysWellFormed(s, t);
    MergeStaysDisjoint(s, t, u);
    LandingLands(Merge(s, t), u, q);
    MergeSpliced(Merge(s, t), u);
  }

  // ---------- any order ----------

  lemma {:induction false} MergeAllApart(s: Doc, ts: seq<Doc>, u: Doc)
    requires WellFormed(s) && Sources(s, ts) && Disjoint(s, u) && forall i :: 0 <= i < |ts| ==> Disjoint(ts[i], u)
    ensures WellFormed(MergeAll(s, ts)) && Disjoint(MergeAll(s, ts), u)
  {
    if ts != [] {
      var n := |ts| - 1;
      MergeAllApart(s, ts[..n], u);
      MergeAllApart(s, ts[..n], ts[n]);
      MergeStaysWellFormed(MergeAll(s, ts[..n]), ts[n]);
      MergeStaysDisjoint(MergeAll(s, ts[..n]), ts[n], u);
    }
  }

  function Without(ts: seq<Doc>, k: nat): seq<Doc>
    requires k < |ts|
  {
    ts[..k] + ts[k + 1..]
  }

  lemma SourcesWithout(s: Doc, ts: seq<Doc>, k: nat)
    requires Sources(s, ts) && k < |ts|
    ensures Sources(s, Without(ts, k))
    ensures forall i :: 0 <= i < |ts| - 1 ==> Disjoint(Without(ts, k)[i], ts[k])
  {
    var us := Without(ts, k);
    forall i | 0 <= i < |us| ensures us[i] == ts[if i < k then i else i + 1] && Disjoint(us[i], ts[k]) {
      if i >= k {
        DisjointSymmetric(ts[k], ts[i + 1]);
      }
    }
  }

  // Any source may as well come last.
  lemma {:induction false} MoveLast(s: Doc, ts: seq<Doc>, k: nat)
    requires WellFormed(s) && Sources(s, ts) && k < |ts|
    ensures MergeAll(s, ts) == Merge(MergeAll(s, Without(ts, k)), ts[k])
    decreases |ts|
  {
    var n := |ts| - 1;
    var init := ts[..n];
    if k == n {
      assert Without(ts, k) == init;
    } else {
      SourcesInit(s, ts);
      MoveLast(s, init, k);
      MovePast(s, ts, k, init, Without(init, k));
    }
  }

  lemma SourcesInit(s: Doc, ts: seq<Doc>)
    requires Sources(s, ts) && ts != []
    ensures Sources(s, ts[..|ts| - 1])
  {
  }

  lemma MovePast(s: Doc, ts: seq<Doc>, k: nat, init: seq<Doc>, mid: seq<Doc>)
    requires WellFormed(s) && Sources(s, ts) && k < |ts| - 1 && init == ts[..|ts| - 1] && mid == Without(init, k)
    requires MergeAll(s, init) == Merge(MergeAll(s, mid), ts[k])
    ensures MergeAll(s, ts) == Merge(MergeAll(s, Without(ts, k)), ts[k])
  {
    LastTwoCommute(s, ts, k, mid);
    MovePastEquals(Merging(), s, ts, k, init, mid, ts[|ts| - 1], MergeAll(s, mid));
  }

  lemma MovePastEquals(f: (Doc, Doc) -> Doc, s: Doc, ts: seq<Doc>, k: nat, init: seq<Doc>, mid: seq<Doc>, t: Doc, m: Doc)
    requires k < |ts| - 1 && init == ts[..|ts| - 1] && mid == Without(init, k) && t == ts[|ts| - 1] && m == Fold(f, s, mid)
    requires Fold(f, s, init) == f(m, ts[k]) && f(f(m, ts[k]), t) == f(f(m, t), ts[k])
    ensures Fold(f, s, ts) == f(Fold(f, s, Without(ts, k)), ts[k])
  {
    WithoutLast(ts, k);
    FoldLast(f, s, init, t);
    FoldLast(f, s, mid, t);
  }

  lemma WithoutLast(ts: seq<Doc>, k: nat)
    requires k < |ts| - 1
    ensures var n := |ts| - 1; Without(ts, k) == Without(ts[..n], k) + [ts[n]] && ts == ts[..n] + [ts[n]]
  {
  }

  lemma FoldLast(f: (Doc, Doc) -> Doc, s: Doc, mid: seq<Doc>, t: Doc)
    ensures Fold(f, s, mid + [t]) == f(Fold(f, s, mid), t)
  {
    assert (mid + [t])[..|mid|] == mid;
  }

  lemma LastTwoCommute(s: Doc, ts: seq<Doc>, k: nat, mid: seq<Doc>)
    requires WellFormed(s) && Sources(s, ts) && k < |ts| - 1 && mid == Without(ts[..|ts| - 1], k)
    ensures Merge(Merge(MergeAll(s, mid), ts[k]), ts[|ts| - 1]) == Merge(Merge(MergeAll(s, mid), ts[|ts| - 1]), ts[k])
  {
    MidApart(s, ts, k, mid);
    MergeAllApart(s, mid, ts[k]);
    MergeAllApart(s, mid, ts[|ts| - 1]);
    MergesCommute(MergeAll(s, mid), ts[k], ts[|ts| - 1]);
  }

  lemma MidApart(s: Doc, ts: seq<Doc>, k: nat, mid: seq<Doc>)
    requires Sources(s, ts) && k < |ts| - 1 && mid == Without(ts[..|ts| - 1], k)
    ensures Sources(s, mid) && Disjoint(ts[k], ts[|ts| - 1])
    ensures forall i :: 0 <= i < |mid| ==> Disjoint(mid[i], ts[k]) && Disjoint(mid[i], ts[|ts| - 1])
  {
    SourcesWithout(s, ts[..|ts| - 1], k);
    forall i | 0 <= i < |mid| ensures Disjoint(mid[i], ts[|ts| - 1]) {
      assert mid[i] == ts[if i < k then i else i + 1];
    }
  }

  // The sources that bring anything are the same.
  ghost predicate SameSources(ts: seq<Doc>, us: seq<Doc>) {
    forall t :: |t| > 1 ==> (t in ts <==> t in us)
  }

  lemma {:induction false} OrderIrrelevant(s: Doc, ts: seq<Doc>, us: seq<Doc>)
    requires WellFormed(s) && Sources(s, ts) && Sources(s, us) && SameSources(ts, us)
    ensures MergeAll(s, ts) == MergeAll(s, us)
    decreases |ts| + |us|
  {
    if ts == [] {
      if us != [] {
        DropEmpty(s, us, ts);
        OrderIrrelevant(s, ts, us[..|us| - 1]);
      }
    } else {
      var n := |ts| - 1;
      var t := ts[n];
      if |t| == 1 {
        DropEmpty(s, ts, us);
        OrderIrrelevant(s, ts[..n], us);
      } else {
        assert t in ts;
        var k :| 0 <= k < |us| && us[k] == t;
        MoveLast(s, us, k);
        SourcesWithout(s, us, k);
        WithoutSame(ts, us, k);
        OrderIrrelevant(s, ts[..n], Without(us, k));
      }
    }
  }

  // A last source without nodes brings nothing.
  lemma DropEmpty(s: Doc, ts: seq<Doc>, us: seq<Doc>)
    requires WellFormed(s) && Sources(s, ts) && ts != [] && SameSources(ts, us) && (|ts[|ts| - 1]| == 1 || us == [])
    ensures MergeAll(s, ts) == MergeAll(s, ts[..|ts| - 1]) && SameSources(ts[..|ts| - 1], us) && SameSources(us, ts[..|ts| - 1])
  {
    var n := |ts| - 1;
    var t := ts[n];
    assert t in ts;
    assert |t| == 1;
    MergeAllApart(s, ts[..n], t);
    EmptyMerge(MergeAll(s, ts[..n]), t);
    assert ts == ts[..n] + [t];
  }

  lemma WithoutSame(ts: seq<Doc>, us: seq<Doc>, k: nat)
    requires ts != [] && k < |us| && us[k] == ts[|ts| - 1] && |us[k]| > 1 && SameSources(ts, us)
    requires forall i, j :: 0 <= i < j < |ts| ==> Disjoint(ts[i], ts[j])
    requires forall i, j :: 0 <= i < j < |us| ==> Disjoint(us[i], us[j])
    ensures SameSources(ts[..|ts| - 1], Without(us, k))
  {
    var n := |ts| - 1;
    var t := us[k];
    forall x | |x| > 1 ensures x in ts[..n] <==> x in Without(us, k) {
      OnceOnly(ts, n, x);
      OnceOnly(us, k, x);
      assert Without(ts, n) == ts[..n];
    }
  }

  // A source with nodes occurs once.
  lemma OnceOnly(ts: seq<Doc>, k: nat, x: Doc)
    requires k < |ts| && |x| > 1 && forall i, j :: 0 <= i < j < |ts| ==> Disjoint(ts[i], ts[j])
    ensures x in Without(ts, k) <==> x in ts && x != ts[k]
  {
    var us := Without(ts, k);
    if x in us {
      var i :| 0 <= i < |us| && us[i] == x;
      var j := if i < k then i else i + 1;
      assert ts[j] == x;
      NotTwice(ts, if j < k then j else k, if j < k then k else j);
    }
    if x in ts && x != ts[k] {
      var j :| 0 <= j < |ts| && ts[j] == x;
      assert us[if j < k then j else j - 1] == x;
    }
  }

  lemma NotTwice(ts: seq<Doc>, i: nat, j: nat)
    requires i < j < |ts| && Disjoint(ts[i], ts[j])
    ensures |ts[i]| > 1 ==> ts[i] != ts[j]
  {
    if |ts[i]| > 1 && |ts[j]| > 1 {
      assert ts[i][1].id != ts[j][1].id;
    }
  }

  /** Merging the same independently edited replicas into any well-formed list, in any two orders, leaves the
      identical list. */
  lemma GossipOrderIrrelevant(s: Doc, ts: seq<Doc>, us: seq<Doc>)
    requires WellFormed(s) && Sources(s, ts) && Sources(s, us)
    requires forall t :: t in ts <==> t in us
    ensures MergeAll(s, ts) == MergeAll(s, us)
  {
    OrderIrrelevant(s, ts, us);
  }
}
