/** The Merkle tree used for anti-entropy. The hash is a parameter: any function to 32-byte digests; laws
    about it are stated as the absence of collisions among the strings actually hashed. */
module Merkle {
  import opened Bytes
  import Lex

  const ZeroBytes: bytes := [0, 0, 0, 0, 0, 0, 0, 0, 0, 0, 0, 0, 0, 0, 0, 0,
                             0, 0, 0, 0, 0, 0, 0, 0, 0, 0, 0, 0, 0, 0, 0, 0]
  type Digest = d: bytes | |d| == 32 witness ZeroBytes
  type Hash = bytes -> Digest

  const Zero: Digest := ZeroBytes

  /** The preimage of an inner node: the two digests, smaller first. */
  function Preimage(a: Digest, b: Digest): bytes {
    if Lex.Less(a, b) then a + b else b + a
  }

  function HashPair(h: Hash, a: Digest, b: Digest): Digest {
    h(Preimage(a, b))
  }

  /** Both digests, the one that does not sort behind the other first. */
  lemma PreimageSorted(a: Digest, b: Digest)
    ensures var p := Preimage(a, b); |p| == 64 && !Lex.Less(p[32..], p[..32]) && (p == a + b || p == b + a)
  {
    Lex.Total(a, b);
    Lex.Irreflexive(a);
    if Lex.Less(a, b) {
      Lex.Asymmetric(a, b);
    }
    assert (a + b)[..32] == a && (a + b)[32..] == b && (b + a)[..32] == b && (b + a)[32..] == a;
  }

  lemma PreimageSymmetric(a: Digest, b: Digest)
    ensures Preimage(a, b) == Preimage(b, a)
  {
    Lex.Total(a, b);
    if Lex.Less(a, b) {
      Lex.Asymmetric(a, b);
    }
  }

  // An inner preimage determines its two halves.
  lemma PreimageHalves(a: Digest, b: Digest, c: Digest, d: Digest)
    requires Preimage(a, b) == Preimage(c, d)
    ensures (a == c && b == d) || (a == d && b == c)
  {
    var x := Preimage(a, b);
    assert x[..32] == (if Lex.Less(a, b) then a else b) && x[32..] == (if Lex.Less(a, b) then b else a);
    assert x[..32] == (if Lex.Less(c, d) then c else d) && x[32..] == (if Lex.Less(c, d) then d else c);
  }

  // ---------- building the root, level by level ----------

  /** One level up: neighbours are paired, an odd last node is promoted unchanged. */
  function NextLevel(h: Hash, ls: seq<Digest>): (r: seq<Digest>)
    ensures |r| == (|ls| + 1) / 2
  {
    if |ls| <= 1 then ls else [HashPair(h, ls[0], ls[1])] + NextLevel(h, ls[2..])
  }

  function ComputeRoot(h: Hash, ls: seq<Digest>): Digest
    decreases |ls|
  {
    if |ls| == 0 then Zero else if |ls| == 1 then ls[0] else ComputeRoot(h, NextLevel(h, ls))
  }

  lemma {:induction false} NextLevelAt(h: Hash, ls: seq<Digest>, i: nat)
    requires i < (|ls| + 1) / 2
    ensures NextLevel(h, ls)[i] == if 2 * i + 1 < |ls| then HashPair(h, ls[2 * i], ls[2 * i + 1]) else ls[2 * i]
  {
    if |ls| > 1 && i > 0 {
      NextLevelAt(h, ls[2..], i - 1);
    }
  }

  /** The loop the program runs for one level, then for the whole tree. */
  method BuildLevel(h: Hash, ls: seq<Digest>) returns (next: seq<Digest>)
    ensures next == NextLevel(h, ls)
  {
    next := [];
    var i := 0;
    while i < |ls|
      invariant i == 2 * |next| || (i == |ls| + 1 && |next| == (|ls| + 1) / 2)
      invariant |next| <= (|ls| + 1) / 2
      invariant forall k :: 0 <= k < |next| ==> next[k] == NextLevel(h, ls)[k]
    {
      NextLevelAt(h, ls, |next|);
      if i + 1 < |ls| {
        next := next + [HashPair(h, ls[i], ls[i + 1])];
      } else {
        next := next + [ls[i]];
      }
      i := i + 2;
    }
  }

  method BuildRoot(h: Hash, leaves: seq<Digest>) returns (root: Digest)
    ensures root == ComputeRoot(h, leaves)
    decreases |leaves|
  {
    if |leaves| == 0 {
      return Zero;
    }
    if |leaves| == 1 {
      return leaves[0];
    }
    var next := BuildLevel(h, leaves);
    root := BuildRoot(h, next);
  }

  // ---------- the same root, split top-down ----------

  predicate PowerOfTwo(k: nat) { k == 1 || (k > 1 && k % 2 == 0 && PowerOfTwo(k / 2)) }

  /** Where a list of n leaves divides into the two subtrees of its root: at the largest power of two below n. */
  function Split(n: nat): (k: nat)
    requires n >= 2
    ensures 1 <= k < n <= 2 * k && PowerOfTwo(k)
    ensures n >= 3 ==> k % 2 == 0
  {
    if n == 2 then 1 else 2 * Split((n + 1) / 2)
  }

  lemma {:induction false} NextLevelSplits(h: Hash, ls: seq<Digest>, k: nat)
    requires k % 2 == 0 && k <= |ls|
    ensures NextLevel(h, ls) == NextLevel(h, ls[..k]) + NextLevel(h, ls[k..])
    decreases k
  {
    if k == 0 {
      assert ls[0..] == ls;
    } else {
      var rest, front := ls[2..], ls[..k];
      NextLevelSplits(h, rest, k - 2);
      assert front[2..] == rest[..k - 2];
      assert ls[k..] == rest[k - 2..];
      SamePairFirst(h, ls, front, NextLevel(h, rest[..k - 2]), NextLevel(h, ls[k..]));
    }
  }

  lemma SamePairFirst(h: Hash, ls: seq<Digest>, front: seq<Digest>, a: seq<Digest>, b: seq<Digest>)
    requires |ls| >= 2 && |front| >= 2 && front[0] == ls[0] && front[1] == ls[1]
    requires NextLevel(h, ls[2..]) == a + b && NextLevel(h, front[2..]) == a
    ensures NextLevel(h, ls) == NextLevel(h, front) + b
  {
    LevelFirst(h, ls);
    LevelFirst(h, front);
    Regroup([HashPair(h, ls[0], ls[1])], a, b);
  }

  lemma LevelFirst(h: Hash, ls: seq<Digest>)
    requires |ls| >= 2
    ensures NextLevel(h, ls) == [HashPair(h, ls[0], ls[1])] + NextLevel(h, ls[2..])
  {
  }

  lemma Regroup<T>(a: seq<T>, b: seq<T>, c: seq<T>)
    ensures a + (b + c) == (a + b) + c
  {
  }

  /** The level-by-level root is the hash of the roots of the two parts. */
  lemma {:induction false} RootSplits(h: Hash, ls: seq<Digest>)
    requires |ls| >= 2
    ensures var k := Split(|ls|);
            && PowerOfTwo(k) && k < |ls| <= 2 * k
            && ComputeRoot(h, ls) == HashPair(h, ComputeRoot(h, ls[..k]), ComputeRoot(h, ls[k..]))
    decreases |ls|
  {
    var k := Split(|ls|);
    var up := NextLevel(h, ls);
    if |ls| == 2 {
      assert up == [HashPair(h, ls[0], ls[1])];
    } else {
      RootSplits(h, up);
      NextLevelSplits(h, ls, k);
      var a, b := NextLevel(h, ls[..k]), NextLevel(h, ls[k..]);
      assert up == a + b && |a| == k / 2 == Split(|up|);
      assert up[..k / 2] == a && up[k / 2..] == b;
      LevelKeepsRoot(h, ls[..k]);
      LevelKeepsRoot(h, ls[k..]);
    }
  }

  lemma LevelKeepsRoot(h: Hash, ls: seq<Digest>)
    requires |ls| > 0
    ensures ComputeRoot(h, NextLevel(h, ls)) == ComputeRoot(h, ls)
  {
  }

  // ---------- trees over data ----------

  function Leaves(h: Hash, ds: seq<bytes>): (ls: seq<Digest>)
    ensures |ls| == |ds| && forall i :: 0 <= i < |ds| ==> ls[i] == h(ds[i])
  {
    seq(|ds|, i requires 0 <= i < |ds| => h(ds[i]))
  }

  function Root(h: Hash, ds: seq<bytes>): Digest {
    ComputeRoot(h, Leaves(h, ds))
  }

  /** What the root of two or more entries is the hash of. */
  function RootPreimage(h: Hash, ds: seq<bytes>): bytes
    requires |ds| >= 2
  {
    Preimage(Root(h, ds[..Split(|ds|)]), Root(h, ds[Split(|ds|)..]))
  }

  /** Every string hashed while building the tree of ds. */
  ghost function Hashed(h: Hash, ds: seq<bytes>): set<bytes>
    decreases |ds|
  {
    if |ds| == 0 then {}
    else if |ds| == 1 then {ds[0]}
    else {RootPreimage(h, ds)} + Hashed(h, ds[..Split(|ds|)]) + Hashed(h, ds[Split(|ds|)..])
  }

  ghost predicate CollisionFree(h: Hash, xs: set<bytes>) {
    forall x, y :: x in xs && y in xs && h(x) == h(y) ==> x == y
  }

  lemma LeavesSplit(h: Hash, ds: seq<bytes>, k: nat)
    requires k <= |ds|
    ensures Leaves(h, ds)[..k] == Leaves(h, ds[..k]) && Leaves(h, ds)[k..] == Leaves(h, ds[k..])
  {
  }

  // The string whose hash is the root.
  function Top(h: Hash, ds: seq<bytes>): bytes
    requires |ds| > 0
  {
    if |ds| == 1 then ds[0] else RootPreimage(h, ds)
  }

  lemma RootIsHash(h: Hash, ds: seq<bytes>)
    requires |ds| > 0
    ensures Root(h, ds) == h(Top(h, ds)) && Top(h, ds) in Hashed(h, ds)
  {
    if |ds| >= 2 {
      RootSplits(h, Leaves(h, ds));
      LeavesSplit(h, ds, Split(|ds|));
    }
  }

  /** What the inner nodes of the tree of ds are the hashes of. */
  ghost function Inner(h: Hash, ds: seq<bytes>): set<bytes>
    decreases |ds|
  {
    if |ds| < 2 then {} else {RootPreimage(h, ds)} + Inner(h, ds[..Split(|ds|)]) + Inner(h, ds[Split(|ds|)..])
  }

  ghost predicate NoneIn(ds: seq<bytes>, inner: set<bytes>) { forall d :: d in ds ==> d !in inner }

  /** The list itself and, recursively, its two halves: the entries below one node of its tree. */
  ghost predicate Part(ds: seq<bytes>, a: seq<bytes>)
    decreases |ds|
  {
    a == ds || (|ds| >= 2 && (Part(ds[..Split(|ds|)], a) || Part(ds[Split(|ds|)..], a)))
  }

  // What the node above b is the hash of is an entry of xs, and b is not just copies of it.
  ghost predicate Mimicked(h: Hash, xs: seq<bytes>, b: seq<bytes>) {
    |b| >= 2 && RootPreimage(h, b) in xs && exists d :: d in b && d != RootPreimage(h, b)
  }

  /** No entry of one list mimics an inner node of the other's tree. */
  ghost predicate Unmixed(h: Hash, xs: seq<bytes>, ys: seq<bytes>) {
    (forall b :: Part(ys, b) ==> !Mimicked(h, xs, b)) && (forall a :: Part(xs, a) ==> !Mimicked(h, ys, a))
  }

  // Entries of any other length than 64 are never mixed up.
  ghost predicate Plain(ds: seq<bytes>) { forall d :: d in ds ==> |d| != 64 }

  lemma PlainUnmixed(h: Hash, xs: seq<bytes>, ys: seq<bytes>)
    requires Plain(xs) && Plain(ys)
    ensures Unmixed(h, xs, ys)
  {
  }

  ghost function Entries(ds: seq<bytes>): set<bytes> {
    set d | d in ds
  }

  lemma EntriesSplit(ds: seq<bytes>, k: nat)
    requires k <= |ds|
    ensures Entries(ds) == Entries(ds[..k]) + Entries(ds[k..])
  {
    assert ds == ds[..k] + ds[k..];
  }

  // Equal roots are hashes of the same string.
  lemma SameTop(h: Hash, xs: seq<bytes>, ys: seq<bytes>)
    requires |xs| > 0 && |ys| > 0 && Root(h, xs) == Root(h, ys)
    requires CollisionFree(h, Hashed(h, xs) + Hashed(h, ys))
    ensures Top(h, xs) == Top(h, ys)
  {
    RootIsHash(h, xs);
    RootIsHash(h, ys);
  }

  lemma HashedParts(h: Hash, ds: seq<bytes>)
    requires |ds| >= 2
    ensures Hashed(h, ds[..Split(|ds|)]) <= Hashed(h, ds) && Hashed(h, ds[Split(|ds|)..]) <= Hashed(h, ds)
  {
  }

  lemma FewerCollisions(h: Hash, xs: set<bytes>, ys: set<bytes>)
    requires CollisionFree(h, ys) && xs <= ys
    ensures CollisionFree(h, xs)
  {
  }

  /** Without collisions and mix-ups, equal roots mean the same entries. */
  lemma {:induction false} SameRootSameEntries(h: Hash, xs: seq<bytes>, ys: seq<bytes>)
    requires |xs| > 0 && |ys| > 0 && Unmixed(h, xs, ys)
    requires CollisionFree(h, Hashed(h, xs) + Hashed(h, ys))
    requires Root(h, xs) == Root(h, ys)
    ensures Entries(xs) == Entries(ys)
    decreases |xs|, 1
  {
    SameTop(h, xs, ys);
    if |xs| == 1 || |ys| == 1 {
      SingleEntry(h, xs, ys);
    } else {
      var j, k := Split(|xs|), Split(|ys|);
      PreimageHalves(Root(h, xs[..j]), Root(h, xs[j..]), Root(h, ys[..k]), Root(h, ys[k..]));
      if Root(h, xs[..j]) == Root(h, ys[..k]) && Root(h, xs[j..]) == Root(h, ys[k..]) {
        SamePart(h, xs, ys, xs[..j], ys[..k]);
        SamePart(h, xs, ys, xs[j..], ys[k..]);
      } else {
        SamePart(h, xs, ys, xs[..j], ys[k..]);
        SamePart(h, xs, ys, xs[j..], ys[..k]);
      }
      EntriesSplit(xs, j);
      EntriesSplit(ys, k);
    }
  }

  lemma SamePart(h: Hash, xs: seq<bytes>, ys: seq<bytes>, a: seq<bytes>, b: seq<bytes>)
    requires |xs| >= 2 && |ys| >= 2 && Unmixed(h, xs, ys)
    requires CollisionFree(h, Hashed(h, xs) + Hashed(h, ys))
    requires a == xs[..Split(|xs|)] || a == xs[Split(|xs|)..]
    requires b == ys[..Split(|ys|)] || b == ys[Split(|ys|)..]
    requires Root(h, a) == Root(h, b)
    ensures Entries(a) == Entries(b)
    decreases |xs|, 0
  {
    PartHashed(h, xs, a);
    PartHashed(h, ys, b);
    HalvesUnmixed(h, xs, ys, a, b);
    FewerCollisionsEach(h, Hashed(h, a), Hashed(h, b), Hashed(h, xs), Hashed(h, ys));
    SameRootSameEntries(h, a, b);
  }

  lemma PartHashed(h: Hash, xs: seq<bytes>, a: seq<bytes>)
    requires |xs| >= 2 && (a == xs[..Split(|xs|)] || a == xs[Split(|xs|)..])
    ensures Hashed(h, a) <= Hashed(h, xs) && Inner(h, a) <= Inner(h, xs) && 0 < |a| < |xs|
    ensures (forall d :: d in a ==> d in xs) && (forall p :: Part(a, p) ==> Part(xs, p))
  {
    HashedParts(h, xs);
    InnerParts(h, xs);
  }

  lemma HalvesUnmixed(h: Hash, xs: seq<bytes>, ys: seq<bytes>, a: seq<bytes>, b: seq<bytes>)
    requires Unmixed(h, xs, ys) && (forall d :: d in a ==> d in xs) && (forall d :: d in b ==> d in ys)
    requires (forall p :: Part(a, p) ==> Part(xs, p)) && (forall p :: Part(b, p) ==> Part(ys, p))
    ensures Unmixed(h, a, b)
  {
  }

  lemma InnerParts(h: Hash, ds: seq<bytes>)
    requires |ds| >= 2
    ensures Inner(h, ds[..Split(|ds|)]) <= Inner(h, ds) && Inner(h, ds[Split(|ds|)..]) <= Inner(h, ds)
  {
  }

  lemma FewerCollisionsEach(h: Hash, a: set<bytes>, b: set<bytes>, xs: set<bytes>, ys: set<bytes>)
    requires CollisionFree(h, xs + ys) && a <= xs && b <= ys
    ensures CollisionFree(h, a + b)
  {
  }

  // A leaf does not pass for an inner node: if one side is a single entry, the other has no further one.
  lemma SingleEntry(h: Hash, xs: seq<bytes>, ys: seq<bytes>)
    requires |xs| > 0 && |ys| > 0 && Unmixed(h, xs, ys)
    requires |xs| == 1 || |ys| == 1
    requires Top(h, xs) == Top(h, ys)
    ensures Entries(xs) == Entries(ys)
  {
    assert Part(xs, xs) && Part(ys, ys);
    if |xs| == 1 {
      OnlyTop(h, xs, ys);
    } else {
      OnlyTop(h, ys, xs);
    }
  }

  lemma OnlyTop(h: Hash, xs: seq<bytes>, ys: seq<bytes>)
    requires |xs| == 1 && |ys| > 0 && Top(h, xs) == Top(h, ys) && !Mimicked(h, xs, ys)
    ensures Entries(xs) == Entries(ys)
  {
    assert ys[0] in ys;
    forall d | d in ys ensures d == xs[0] {
    }
  }

  /** The condition matters: leaves and inner nodes are hashed alike, so the single entry made of
      the two digests below a root has that very root. */
  lemma EntryMimicsTree(h: Hash, ds: seq<bytes>)
    requires |ds| >= 2
    ensures Root(h, [RootPreimage(h, ds)]) == Root(h, ds)
    ensures |RootPreimage(h, ds)| == 64
    ensures (exists d :: d in ds && d != RootPreimage(h, ds)) ==> Entries([RootPreimage(h, ds)]) != Entries(ds)
  {
    RootIsHash(h, ds);
    RootIsHash(h, [RootPreimage(h, ds)]);
    if d :| d in ds && d != RootPreimage(h, ds) {
      assert d in Entries(ds);
    }
  }

  // ---------- exactly when roots tell ----------

  lemma {:induction false} PartOf(h: Hash, ds: seq<bytes>, a: seq<bytes>)
    requires |ds| > 0 && Part(ds, a)
    ensures |a| > 0 && Hashed(h, a) <= Hashed(h, ds) && (forall d :: d in a ==> d in ds) && (forall p :: Part(a, p) ==> Part(ds, p))
    decreases |ds|
  {
    if a != ds {
      var k := Split(|ds|);
      var half := if Part(ds[..k], a) then ds[..k] else ds[k..];
      PartHashed(h, ds, half);
      PartOf(h, half, a);
    }
  }

  lemma {:induction false} SinglePart(ds: seq<bytes>, d: bytes)
    requires d in ds
    ensures Part(ds, [d])
    decreases |ds|
  {
    if |ds| >= 2 {
      var k := Split(|ds|);
      assert ds == ds[..k] + ds[k..];
      SinglePart(if d in ds[..k] then ds[..k] else ds[k..], d);
    }
  }

  /** Parts of the two lists with the same root have the same entries. */
  ghost predicate RootsTell(h: Hash, xs: seq<bytes>, ys: seq<bytes>) {
    forall a, b :: Part(xs, a) && Part(ys, b) && Root(h, a) == Root(h, b) ==> Entries(a) == Entries(b)
  }

  /** Without collisions, roots tell the entries of the two lists and of all their parts if and only if no
      entry of one mimics an inner node of the other. */
  lemma RootsTellIff(h: Hash, xs: seq<bytes>, ys: seq<bytes>)
    requires |xs| > 0 && |ys| > 0 && CollisionFree(h, Hashed(h, xs) + Hashed(h, ys))
    ensures RootsTell(h, xs, ys) <==> Unmixed(h, xs, ys)
  {
    if Unmixed(h, xs, ys) {
      forall a, b | Part(xs, a) && Part(ys, b) && Root(h, a) == Root(h, b) ensures Entries(a) == Entries(b) {
        PartsTell(h, xs, ys, a, b);
      }
    } else if b :| Part(ys, b) && Mimicked(h, xs, b) {
      MimicFools(h, xs, ys, b);
    } else {
      var a :| Part(xs, a) && Mimicked(h, ys, a);
      MimicFools(h, ys, xs, a);
    }
  }

  lemma PartsTell(h: Hash, xs: seq<bytes>, ys: seq<bytes>, a: seq<bytes>, b: seq<bytes>)
    requires |xs| > 0 && |ys| > 0 && CollisionFree(h, Hashed(h, xs) + Hashed(h, ys)) && Unmixed(h, xs, ys)
    requires Part(xs, a) && Part(ys, b) && Root(h, a) == Root(h, b)
    ensures Entries(a) == Entries(b)
  {
    PartOf(h, xs, a);
    PartOf(h, ys, b);
    HalvesUnmixed(h, xs, ys, a, b);
    FewerCollisionsEach(h, Hashed(h, a), Hashed(h, b), Hashed(h, xs), Hashed(h, ys));
    SameRootSameEntries(h, a, b);
  }

  // The entry that mimics the node above b has b's root all by itself.
  lemma MimicFools(h: Hash, xs: seq<bytes>, ys: seq<bytes>, b: seq<bytes>)
    requires Part(ys, b) && Mimicked(h, xs, b)
    ensures !RootsTell(h, xs, ys) && !RootsTell(h, ys, xs)
  {
    var x := RootPreimage(h, b);
    SinglePart(xs, x);
    EntryMimicsTree(h, b);
    assert Part(xs, [x]) && Root(h, [x]) == Root(h, b) && Entries([x]) != Entries(b);
  }

  // ---------- DiffMerkle ----------

  datatype Tree = Tree(leaves: seq<Digest>, root: Digest)

  function NewTree(h: Hash, ds: seq<bytes>): Tree {
    Tree(Leaves(h, ds), Root(h, ds))
  }

  ghost function LeafSet(t: Tree): set<Digest> {
    set l | l in t.leaves
  }

  // What one side has and the other lacks, each once, in some order.
  ghost predicate Lists(out: seq<Digest>, want: set<Digest>) {
    && (forall l :: l in out <==> l in want)
    && (forall i, j :: 0 <= i < j < |out| ==> out[i] != out[j])
  }

  method Only(mine: set<Digest>, theirs: set<Digest>) returns (out: seq<Digest>)
    ensures Lists(out, mine - theirs)
  {
    out := [];
    var todo := mine;
    while todo != {}
      invariant todo <= mine && Lists(out, mine - todo - theirs)
    {
      var leaf :| leaf in todo;
      if leaf !in theirs {
        ListsSnoc(out, mine - todo - theirs, leaf);
        out := out + [leaf];
      }
      todo := todo - {leaf};
      assert mine - todo - theirs == (mine - (todo + {leaf}) - theirs) + (if leaf in theirs then {} else {leaf});
    }
  }

  lemma ListsSnoc(out: seq<Digest>, want: set<Digest>, leaf: Digest)
    requires Lists(out, want) && leaf !in want
    ensures Lists(out + [leaf], want + {leaf})
  {
    assert forall i :: 0 <= i < |out| ==> out[i] in out;
  }

  // The answer of DiffMerkle: equal roots are taken to mean nothing to exchange.
  ghost predicate Diff(a: Tree, b: Tree, onlyA: seq<Digest>, onlyB: seq<Digest>) {
    if a.root == b.root then onlyA == [] && onlyB == []
    else Lists(onlyA, LeafSet(a) - LeafSet(b)) && Lists(onlyB, LeafSet(b) - LeafSet(a))
  }

  method DiffMerkle(a: Tree, b: Tree) returns (onlyA: seq<Digest>, onlyB: seq<Digest>)
    ensures Diff(a, b, onlyA, onlyB)
  {
    if a.root == b.root {
      return [], [];
    }
    var leavesA := set l | l in a.leaves;
    var leavesB := set l | l in b.leaves;
    onlyA := Only(leavesA, leavesB);
    onlyB := Only(leavesB, leavesA);
  }

  ghost predicate NeverZero(h: Hash, xs: set<bytes>) {
    forall x :: x in xs ==> h(x) != Zero
  }

  lemma {:induction false} EntryHashed(h: Hash, ds: seq<bytes>, d: bytes)
    requires d in ds
    ensures d in Hashed(h, ds)
    decreases |ds|
  {
    if |ds| >= 2 {
      var k := Split(|ds|);
      assert ds == ds[..k] + ds[k..];
      var part := if d in ds[..k] then ds[..k] else ds[k..];
      PartHashed(h, ds, part);
      EntryHashed(h, part, d);
    }
  }

  lemma LeafOfEntry(h: Hash, ds: seq<bytes>, d: bytes)
    requires CollisionFree(h, Hashed(h, ds) + {d})
    ensures h(d) in LeafSet(NewTree(h, ds)) <==> d in ds
  {
    var ls := Leaves(h, ds);
    if d in ds {
      var i :| 0 <= i < |ds| && ds[i] == d;
      assert ls[i] in ls;
    }
    if h(d) in ls {
      var i :| 0 <= i < |ls| && ls[i] == h(d);
      EntryHashed(h, ds, ds[i]);
    }
  }

  // Equal roots, empty trees included.
  lemma ShortcutSound(h: Hash, xs: seq<bytes>, ys: seq<bytes>)
    requires Unmixed(h, xs, ys) && Root(h, xs) == Root(h, ys)
    requires CollisionFree(h, Hashed(h, xs) + Hashed(h, ys)) && NeverZero(h, Hashed(h, xs) + Hashed(h, ys))
    ensures Entries(xs) == Entries(ys)
  {
    if |xs| > 0 {
      RootIsHash(h, xs);
    }
    if |ys| > 0 {
      RootIsHash(h, ys);
    }
    if |xs| > 0 && |ys| > 0 {
      SameRootSameEntries(h, xs, ys);
    } else {
      assert xs == [] && ys == [];
    }
  }

  /** Without collisions and mix-ups the root shortcut loses nothing: taken or not,
      DiffMerkle names exactly the entries one side has and the other lacks. */
  lemma DiffExact(h: Hash, xs: seq<bytes>, ys: seq<bytes>, onlyX: seq<Digest>, onlyY: seq<Digest>, d: bytes)
    requires Unmixed(h, xs, ys) && Diff(NewTree(h, xs), NewTree(h, ys), onlyX, onlyY)
    requires CollisionFree(h, Hashed(h, xs) + Hashed(h, ys)) && NeverZero(h, Hashed(h, xs) + Hashed(h, ys))
    ensures d in xs ==> (h(d) in onlyX <==> d !in ys)
    ensures d in ys ==> (h(d) in onlyY <==> d !in xs)
  {
    if Root(h, xs) == Root(h, ys) {
      ShortcutSound(h, xs, ys);
      assert d in Entries(xs) <==> d in Entries(ys);
    } else {
      var all := Hashed(h, xs) + Hashed(h, ys);
      if d in xs {
        EntryHashed(h, xs, d);
        FewerCollisions(h, Hashed(h, ys) + {d}, all);
        LeafOfEntry(h, ys, d);
        FewerCollisions(h, Hashed(h, xs) + {d}, all);
        LeafOfEntry(h, xs, d);
      }
      if d in ys {
        EntryHashed(h, ys, d);
        FewerCollisions(h, Hashed(h, xs) + {d}, all);
        LeafOfEntry(h, xs, d);
        FewerCollisions(h, Hashed(h, ys) + {d}, all);
        LeafOfEntry(h, ys, d);
      }
    }
  }

  // ---------- inclusion proofs ----------

  /** The siblings on the way from leaf i to the root, bottom up; a promoted node has none. */
  function Branch(h: Hash, ls: seq<Digest>, i: nat): seq<Digest>
    requires i < |ls|
    decreases |ls|
  {
    if |ls| == 1 then []
    else
      var up := Branch(h, NextLevel(h, ls), i / 2);
      if i % 2 == 1 then [ls[i - 1]] + up else if i + 1 < |ls| then [ls[i + 1]] + up else up
  }

  function Fold(h: Hash, current: Digest, branch: seq<Digest>): Digest
    decreases |branch|
  {
    if branch == [] then current else Fold(h, HashPair(h, current, branch[0]), branch[1..])
  }

  method VerifyMerkleProof(h: Hash, root: Digest, leaf: bytes, branch: seq<Digest>) returns (ok: bool)
    ensures ok <==> Fold(h, h(leaf), branch) == root
  {
    var current := h(leaf);
    var i := 0;
    while i < |branch|
      invariant 0 <= i <= |branch|
      invariant Fold(h, current, branch[i..]) == Fold(h, h(leaf), branch)
    {
      assert branch[i..][1..] == branch[i + 1..];
      current := HashPair(h, current, branch[i]);
      i := i + 1;
    }
    ok := current == root;
  }

  /** Every leaf of every list, promoted or not, folds up its own branch to the root. */
  lemma {:induction false} BranchFoldsToRoot(h: Hash, ls: seq<Digest>, i: nat)
    requires i < |ls|
    ensures Fold(h, ls[i], Branch(h, ls, i)) == ComputeRoot(h, ls)
    decreases |ls|
  {
    if |ls| > 1 {
      var up := NextLevel(h, ls);
      BranchFoldsToRoot(h, up, i / 2);
      OneLevelUp(h, ls, i, up, Branch(h, up, i / 2));
    }
  }

  // The sibling, if there is one, takes a node to the one above it.
  lemma OneLevelUp(h: Hash, ls: seq<Digest>, i: nat, up: seq<Digest>, rest: seq<Digest>)
    requires i < |ls| && |ls| > 1 && up == NextLevel(h, ls) && i / 2 < |up| && rest == Branch(h, up, i / 2)
    ensures Fold(h, ls[i], Branch(h, ls, i)) == Fold(h, up[i / 2], rest)
  {
    var b := Branch(h, ls, i);
    if i % 2 == 1 {
      assert b == [ls[i - 1]] + rest;
      FoldFirst(h, ls[i], ls[i - 1], rest);
    } else if i + 1 < |ls| {
      assert b == [ls[i + 1]] + rest;
      FoldFirst(h, ls[i], ls[i + 1], rest);
    }
    Above(h, ls, i);
  }

  lemma PairSymmetric(h: Hash, a: Digest, b: Digest)
    ensures HashPair(h, a, b) == HashPair(h, b, a)
  {
    PreimageSymmetric(a, b);
  }

  lemma Above(h: Hash, ls: seq<Digest>, i: nat)
    requires i < |ls|
    ensures i % 2 == 1 ==> NextLevel(h, ls)[i / 2] == HashPair(h, ls[i], ls[i - 1])
    ensures i % 2 == 0 && i + 1 < |ls| ==> NextLevel(h, ls)[i / 2] == HashPair(h, ls[i], ls[i + 1])
    ensures i % 2 == 0 && i + 1 == |ls| ==> NextLevel(h, ls)[i / 2] == ls[i]
  {
    if i % 2 == 1 {
      AboveOdd(h, ls, i / 2, i);
    } else {
      AboveEven(h, ls, i / 2, i);
    }
  }

  lemma AboveEven(h: Hash, ls: seq<Digest>, k: nat, i: nat)
    requires i == 2 * k < |ls|
    ensures i + 1 < |ls| ==> NextLevel(h, ls)[k] == HashPair(h, ls[i], ls[i + 1])
    ensures i + 1 == |ls| ==> NextLevel(h, ls)[k] == ls[i]
  {
    NextLevelAt(h, ls, k);
  }

  lemma AboveOdd(h: Hash, ls: seq<Digest>, k: nat, i: nat)
    requires i == 2 * k + 1 < |ls|
    ensures NextLevel(h, ls)[k] == HashPair(h, ls[i], ls[i - 1])
  {
    NextLevelAt(h, ls, k);
    PairSymmetric(h, ls[i - 1], ls[i]);
  }

  lemma FoldFirst(h: Hash, current: Digest, sibling: Digest, rest: seq<Digest>)
    ensures Fold(h, current, [sibling] + rest) == Fold(h, HashPair(h, current, sibling), rest)
  {
    assert ([sibling] + rest)[1..] == rest;
  }

  lemma ProofAccepted(h: Hash, ds: seq<bytes>, i: nat)
    requires i < |ds|
    ensures Fold(h, h(ds[i]), Branch(h, Leaves(h, ds), i)) == Root(h, ds)
  {
    BranchFoldsToRoot(h, Leaves(h, ds), i);
  }

  // Every string hashed while checking a proof.
  ghost function Checked(h: Hash, current: Digest, branch: seq<Digest>): set<bytes>
    decreases |branch|
  {
    if branch == [] then {}
    else {Preimage(current, branch[0])} + Checked(h, HashPair(h, current, branch[0]), branch[1..])
  }

  lemma {:induction false} FoldLast(h: Hash, current: Digest, branch: seq<Digest>)
    requires branch != []
    ensures var n := |branch| - 1;
            && Fold(h, current, branch) == HashPair(h, Fold(h, current, branch[..n]), branch[n])
            && Preimage(Fold(h, current, branch[..n]), branch[n]) in Checked(h, current, branch)
            && Checked(h, current, branch[..n]) <= Checked(h, current, branch)
    decreases |branch|
  {
    var n := |branch| - 1;
    if n > 0 {
      FoldLast(h, HashPair(h, current, branch[0]), branch[1..]);
      assert branch[1..][..n - 1] == branch[..n][1..];
      assert branch[1..][n - 1] == branch[n];
    }
  }

  /** And only entries have proofs: without collisions and mix-ups, whatever branch is offered. */
  lemma {:induction false} AcceptedIsEntry(h: Hash, ds: seq<bytes>, leaf: bytes, branch: seq<Digest>)
    requires |ds| > 0 && leaf !in Inner(h, ds) && NoneIn(ds, Checked(h, h(leaf), branch))
    requires CollisionFree(h, Hashed(h, ds) + Checked(h, h(leaf), branch) + {leaf})
    requires Fold(h, h(leaf), branch) == Root(h, ds)
    ensures leaf in ds
    decreases |ds|, 1
  {
    RootIsHash(h, ds);
    if branch == [] {
      assert Top(h, ds) == leaf;
    } else {
      var n := |branch| - 1;
      FoldLast(h, h(leaf), branch);
      var below := Fold(h, h(leaf), branch[..n]);
      assert Top(h, ds) == Preimage(below, branch[n]);
      AcceptedBelow(h, ds, leaf, branch);
    }
  }

  lemma AcceptedBelow(h: Hash, ds: seq<bytes>, leaf: bytes, branch: seq<Digest>)
    requires |ds| >= 2 && leaf !in Inner(h, ds) && NoneIn(ds, Checked(h, h(leaf), branch)) && branch != []
    requires CollisionFree(h, Hashed(h, ds) + Checked(h, h(leaf), branch) + {leaf})
    requires RootPreimage(h, ds) == Preimage(Fold(h, h(leaf), branch[..|branch| - 1]), branch[|branch| - 1])
    ensures leaf in ds
    decreases |ds|, 0
  {
    var n, k := |branch| - 1, Split(|ds|);
    var below := Fold(h, h(leaf), branch[..n]);
    PreimageHalves(Root(h, ds[..k]), Root(h, ds[k..]), below, branch[n]);
    var part := if below == Root(h, ds[..k]) then ds[..k] else ds[k..];
    StillCollisionFree(h, ds, k, leaf, branch, n, part);
    StillUnmixed(h, ds, k, leaf, branch, n, part);
    AcceptedIsEntry(h, part, leaf, branch[..n]);
    PartIn(ds, k, part, leaf);
  }

  lemma PartIn(ds: seq<bytes>, k: nat, part: seq<bytes>, leaf: bytes)
    requires k <= |ds| && (part == ds[..k] || part == ds[k..]) && leaf in part
    ensures leaf in ds
  {
  }

  lemma StillUnmixed(h: Hash, ds: seq<bytes>, k: nat, leaf: bytes, branch: seq<Digest>, n: nat, part: seq<bytes>)
    requires |ds| >= 2 && branch != [] && n == |branch| - 1 && k == Split(|ds|) && (part == ds[..k] || part == ds[k..])
    requires leaf !in Inner(h, ds) && NoneIn(ds, Checked(h, h(leaf), branch))
    ensures 0 < |part| < |ds| && leaf !in Inner(h, part) && NoneIn(part, Checked(h, h(leaf), branch[..n]))
  {
    FoldLast(h, h(leaf), branch);
    PartHashed(h, ds, part);
  }

  lemma StillCollisionFree(h: Hash, ds: seq<bytes>, k: nat, leaf: bytes, branch: seq<Digest>, n: nat, part: seq<bytes>)
    requires |ds| >= 2 && branch != [] && n == |branch| - 1 && k == Split(|ds|) && (part == ds[..k] || part == ds[k..])
    requires CollisionFree(h, Hashed(h, ds) + Checked(h, h(leaf), branch) + {leaf})
    ensures CollisionFree(h, Hashed(h, part) + Checked(h, h(leaf), branch[..n]) + {leaf})
  {
    FoldLast(h, h(leaf), branch);
    HashedParts(h, ds);
    FewerCollisions(h, Hashed(h, part) + Checked(h, h(leaf), branch[..n]) + {leaf},
                    Hashed(h, ds) + Checked(h, h(leaf), branch) + {leaf});
  }

  // ---------- exactly what has a proof ----------

  /** Some branch makes the check accept this string. */
  ghost predicate Provable(h: Hash, ds: seq<bytes>, leaf: bytes) {
    exists branch :: Fold(h, h(leaf), branch) == Root(h, ds)
  }

  lemma FoldSnoc(h: Hash, current: Digest, branch: seq<Digest>, sibling: Digest)
    ensures Fold(h, current, branch + [sibling]) == HashPair(h, Fold(h, current, branch), sibling)
  {
    FoldLast(h, current, branch + [sibling]);
    assert (branch + [sibling])[..|branch|] == branch;
  }

  // From the node above a part up to the root.
  lemma {:induction false} PartAccepted(h: Hash, ds: seq<bytes>, b: seq<bytes>) returns (branch: seq<Digest>)
    requires |ds| > 0 && Part(ds, b)
    ensures Fold(h, Root(h, b), branch) == Root(h, ds)
    decreases |ds|
  {
    if b == ds {
      branch := [];
    } else {
      var k := Split(|ds|);
      RootIsHash(h, ds);
      if Part(ds[..k], b) {
        branch := PartAccepted(h, ds[..k], b);
        FoldSnoc(h, Root(h, b), branch, Root(h, ds[k..]));
        branch := branch + [Root(h, ds[k..])];
      } else {
        branch := PartAccepted(h, ds[k..], b);
        FoldSnoc(h, Root(h, b), branch, Root(h, ds[..k]));
        PairSymmetric(h, Root(h, ds[..k]), Root(h, ds[k..]));
        branch := branch + [Root(h, ds[..k])];
      }
    }
  }

  lemma {:induction false} InnerPart(h: Hash, ds: seq<bytes>, x: bytes) returns (b: seq<bytes>)
    requires x in Inner(h, ds)
    ensures Part(ds, b) && |b| >= 2 && x == RootPreimage(h, b)
    decreases |ds|
  {
    var k := Split(|ds|);
    if x == RootPreimage(h, ds) {
      b := ds;
    } else if x in Inner(h, ds[..k]) {
      b := InnerPart(h, ds[..k], x);
    } else {
      b := InnerPart(h, ds[k..], x);
    }
  }

  lemma InnerProvable(h: Hash, ds: seq<bytes>, x: bytes)
    requires |ds| > 0 && x in Inner(h, ds)
    ensures Provable(h, ds, x)
  {
    var b := InnerPart(h, ds, x);
    RootIsHash(h, b);
    var branch := PartAccepted(h, ds, b);
  }

  lemma EntryProvable(h: Hash, ds: seq<bytes>, d: bytes)
    requires d in ds
    ensures Provable(h, ds, d)
  {
    var i :| 0 <= i < |ds| && ds[i] == d;
    ProofAccepted(h, ds, i);
  }

  // Whatever leads the check through an entry can go on from there to the root.
  lemma {:induction false} ThroughEntry(h: Hash, ds: seq<bytes>, current: Digest, branch: seq<Digest>, d: bytes) returns (full: seq<Digest>)
    requires d in ds && d in Checked(h, current, branch)
    ensures Fold(h, current, full) == Root(h, ds)
    decreases |branch|
  {
    var next := HashPair(h, current, branch[0]);
    var rest: seq<Digest>;
    if d == Preimage(current, branch[0]) {
      EntryProvable(h, ds, d);
      rest :| Fold(h, h(d), rest) == Root(h, ds);
    } else {
      rest := ThroughEntry(h, ds, next, branch[1..], d);
    }
    FoldFirst(h, current, branch[0], rest);
    full := [branch[0]] + rest;
  }

  // The check runs through an entry on some branch.
  ghost predicate LeadsToEntry(h: Hash, ds: seq<bytes>, leaf: bytes) {
    exists branch :: !NoneIn(ds, Checked(h, h(leaf), branch))
  }

  /** Entries have proofs, and so has whatever an inner node is the hash of, and whatever can be hashed up to
      an entry. Without collisions nothing else has. */
  lemma ProvableExactly(h: Hash, ds: seq<bytes>, leaf: bytes)
    requires |ds| > 0
    ensures leaf in ds || leaf in Inner(h, ds) || LeadsToEntry(h, ds, leaf) ==> Provable(h, ds, leaf)
    ensures forall branch :: Fold(h, h(leaf), branch) == Root(h, ds)
                             && CollisionFree(h, Hashed(h, ds) + Checked(h, h(leaf), branch) + {leaf})
                             ==> leaf in ds || leaf in Inner(h, ds) || LeadsToEntry(h, ds, leaf)
  {
    if leaf in ds {
      EntryProvable(h, ds, leaf);
    } else if leaf in Inner(h, ds) {
      InnerProvable(h, ds, leaf);
    } else if branch :| !NoneIn(ds, Checked(h, h(leaf), branch)) {
      var d :| d in ds && d in Checked(h, h(leaf), branch);
      var full := ThroughEntry(h, ds, h(leaf), branch, d);
    }
    forall branch | Fold(h, h(leaf), branch) == Root(h, ds) && CollisionFree(h, Hashed(h, ds) + Checked(h, h(leaf), branch) + {leaf})
      ensures leaf in ds || leaf in Inner(h, ds) || LeadsToEntry(h, ds, leaf)
    {
      if leaf !in Inner(h, ds) && NoneIn(ds, Checked(h, h(leaf), branch)) {
        AcceptedIsEntry(h, ds, leaf, branch);
      }
    }
  }
}
