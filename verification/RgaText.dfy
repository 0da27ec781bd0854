/** What the list renders: how each insert, delete and delivery changes the text. */
module RgaText {
  import opened Bytes
  import opened RgaModel
  import RgaIds
  import RgaSystem

  /** The total length of the live values in front of position k, the head's apart. */
  function LiveLength(s: Doc, k: nat): nat
    requires k <= |s|
  {
    if k <= 1 then 0 else LiveLength(s, k - 1) + if s[k - 1].deleted then 0 else |s[k - 1].value|
  }

  lemma {:induction false} LiveLengthPrefix(s: Doc, t: Doc, k: nat)
    requires k <= |s| && k <= |t| && forall i :: 0 <= i < k ==> s[i] == t[i]
    ensures LiveLength(s, k) == LiveLength(t, k)
  {
    if k > 1 {
      LiveLengthPrefix(s, t, k - 1);
    }
  }

  /** The text is as long as the live values together, and empty when there is only the head. */
  lemma {:induction false} TextLength(s: Doc)
    requires |s| > 0
    ensures |Text(s)| == LiveLength(s, |s|) && (|s| == 1 ==> Text(s) == [])
  {
    if |s| > 1 {
      var n := |s| - 1;
      TextLength(s[..n]);
      LiveLengthPrefix(s, s[..n], n);
    }
  }

  lemma TextSnoc(s: Doc, n: Elem)
    requires |s| > 0
    ensures Text(s + [n]) == Text(s) + if n.deleted then [] else n.value
  {
    assert (s + [n])[..|s|] == s;
  }

  // x with y spliced in at p.
  function SpliceAt(x: bytes, p: nat, y: bytes): bytes
    requires p <= |x|
  {
    x[..p] + y + x[p..]
  }

  lemma SpliceGrows(x: bytes, p: nat, y: bytes, z: bytes)
    requires p <= |x|
    ensures SpliceAt(x + z, p, y) == SpliceAt(x, p, y) + z
  {
    assert (x + z)[..p] == x[..p] && (x + z)[p..] == x[p..] + z;
  }

  lemma InsertBeforeLast(s: Doc, k: nat, n: Elem, front: Doc)
    requires 1 <= k < |s| && front == s[..|s| - 1]
    ensures InsertAt(s, k, n) == InsertAt(front, k, n) + [s[|s| - 1]]
  {
    assert s == front + [s[|s| - 1]];
    assert s[..k] == front[..k] && s[k..] == front[k..] + [s[|s| - 1]];
  }

  /** A node at position k shows its value, if it is live, behind the live values ahead of it, and leaves the
      rest of the text alone. */
  lemma {:induction false} InsertedText(s: Doc, k: nat, n: Elem)
    requires 1 <= k <= |s|
    ensures var p := LiveLength(s, k);
            p <= |Text(s)| && Text(InsertAt(s, k, n)) == SpliceAt(Text(s), p, if n.deleted then [] else n.value)
    decreases |s|
  {
    var x := if n.deleted then [] else n.value;
    if k == |s| {
      TextLength(s);
      TextSnoc(s, n);
      assert InsertAt(s, k, n) == s + [n];
      assert Text(s)[..|Text(s)|] == Text(s) && Text(s)[|Text(s)|..] == [];
    } else {
      var front, last := s[..|s| - 1], s[|s| - 1];
      InsertedText(front, k, n);
      LiveLengthPrefix(s, front, k);
      InsertBeforeLast(s, k, n, front);
      assert s == front + [last];
      TextSnoc(front, last);
      TextSnoc(InsertAt(front, k, n), last);
      SpliceGrows(Text(front), LiveLength(s, k), x, if last.deleted then [] else last.value);
    }
  }

  // The value at position k is in the text x where the values ahead of it end, and y is x without it.
  ghost predicate CutOut(s: Doc, k: nat, x: bytes, y: bytes)
    requires k < |s|
  {
    var p, q := LiveLength(s, k), LiveLength(s, k) + |s[k].value|;
    q <= |x| && x[p..q] == s[k].value && y == x[..p] + x[q..]
  }

  function Tombstoned(s: Doc, k: nat): Doc
    requires k < |s|
  {
    s[k := s[k].(deleted := true)]
  }

  lemma Taken(s: Doc, k: nat, n: Elem, rest: Doc)
    requires k < |s| && rest == s[..k] + s[k + 1..]
    ensures InsertAt(rest, k, n) == s[k := n]
  {
    assert rest[..k] == s[..k] && rest[k..] == s[k + 1..];
  }

  lemma SpliceCut(x: bytes, p: nat, v: bytes, y: bytes)
    requires p <= |x| && y == SpliceAt(x, p, v)
    ensures p + |v| <= |y| && y[p..p + |v|] == v && x == y[..p] + y[p + |v|..] && SpliceAt(x, p, []) == x
  {
  }

  // A node dead or alive is the same list with one splice less.
  lemma TombstonedText(s: Doc, k: nat)
    requires 1 <= k < |s| && !s[k].deleted
    ensures CutOut(s, k, Text(s), Text(Tombstoned(s, k)))
  {
    var rest, dead := s[..k] + s[k + 1..], s[k].(deleted := true);
    Taken(s, k, s[k], rest);
    Taken(s, k, dead, rest);
    assert s[k := s[k]] == s;
    InsertedText(rest, k, s[k]);
    InsertedText(rest, k, dead);
    LiveLengthPrefix(s, rest, k);
    SpliceCut(Text(rest), LiveLength(s, k), s[k].value, Text(s));
  }

  /** Deleting a live node takes exactly its value out of the text, from where it stands; deleting any other ID
      changes nothing. */
  lemma {:induction false} ErasedText(s: Doc, id: bytes)
    requires |s| > 0
    ensures var k := Find(s, id); var r := Text(Erase(s, id));
            if 0 < k < |s| && !s[k].deleted then
              var p, q := LiveLength(s, k), LiveLength(s, k) + |s[k].value|;
              q <= |Text(s)| && Text(s)[p..q] == s[k].value && r == Text(s)[..p] + Text(s)[q..]
            else r == Text(s)
  {
    var k := Find(s, id);
    if 0 < k < |s| && !s[k].deleted {
      TombstonedText(s, k);
      assert Erase(s, id) == Tombstoned(s, k);
    } else if k == 0 {
      HeadUnseen(s, Erase(s, id));
    } else if k < |s| {
      assert Erase(s, id) == s;
    }
  }

  lemma {:induction false} HeadUnseen(s: Doc, r: Doc)
    requires |s| > 0 && |r| == |s| && forall i :: 1 <= i < |s| ==> r[i] == s[i]
    ensures Text(r) == Text(s)
    decreases |s|
  {
    if |s| > 1 {
      HeadUnseen(s[..|s| - 1], r[..|s| - 1]);
    }
  }

  // ---------- what a user's edit shows ----------

  // At the end.
  lemma InsertedAtEnd(d: Doc, n: Elem)
    requires |d| > 0 && !n.deleted
    ensures Text(InsertAt(d, |d|, n)) == Text(d) + n.value
  {
    TextSnoc(d, n);
    assert InsertAt(d, |d|, n) == d + [n];
  }

  /** A local insert puts its value directly behind the live values up to the node it is put after, unless that
      node has a child behind it, and then further on; after an unknown node, or after the last, it goes at the end of
      the text. */
  lemma {:induction false} LocalInsertText(r: RgaSystem.Replica, name: bytes, after: bytes, value: bytes, d: Doc, z: Doc, a: nat)
    requires d == r.doc && |d| > 0 && z == RgaSystem.LocalInsert(r, name, after, value).doc
    requires a == if Has(d, after) then Find(d, after) else |d| - 1
    ensures a + 1 == |d| ==> Text(z) == Text(d) + value
    ensures exists k: nat :: a < k <= |d| && (a + 1 < |d| && d[a + 1].origin != d[a].id ==> k == a + 1) && Shown(d, k, value, Text(z))
  {
    var n := Elem(RgaIds.MintId(r.clock + 1, name, value), value, r.clock + 1, name, false, d[a].id);
    LocalDoc(r, name, after, value, d, z, a, n);
    HungOff(d, a, n, z);
  }

  lemma {:induction false} LocalDoc(r: RgaSystem.Replica, name: bytes, after: bytes, value: bytes, d: Doc, z: Doc, a: nat, n: Elem)
    requires d == r.doc && |d| > 0 && z == RgaSystem.LocalInsert(r, name, after, value).doc
    requires a == if Has(d, after) then Find(d, after) else |d| - 1
    requires n == Elem(RgaIds.MintId(r.clock + 1, name, value), value, r.clock + 1, name, false, d[a].id)
    ensures z == InsertAt(d, InsertPos(d, a, n), n)
  {
  }

  lemma {:induction false} HungOff(d: Doc, a: nat, n: Elem, z: Doc)
    requires a < |d| && !n.deleted && z == InsertAt(d, InsertPos(d, a, n), n)
    ensures a + 1 == |d| ==> Text(z) == Text(d) + n.value
    ensures exists k: nat :: a < k <= |d| && (a + 1 < |d| && d[a + 1].origin != d[a].id ==> k == a + 1) && Shown(d, k, n.value, Text(z))
  {
    var k := InsertPos(d, a, n);
    InsertedText(d, k, n);
    if a + 1 == |d| {
      InsertedAtEnd(d, n);
    }
    assert Shown(d, k, n.value, Text(z));
  }

  // y is the text with the value spliced in behind the live values ahead of position k.
  ghost predicate Shown(d: Doc, k: nat, value: bytes, y: bytes)
    requires k <= |d|
  {
    LiveLength(d, k) <= |Text(d)| && y == SpliceAt(Text(d), LiveLength(d, k), value)
  }

  /** A delete by a replica of a system, as that replica's user sees it; no other replica changes. */
  lemma DeleteStepText(y: RgaSystem.System, name: bytes, id: bytes, z: RgaSystem.System)
    requires name in y && |y[name].doc| > 0 && z == RgaSystem.Next(y, RgaSystem.Delete(name, id))
    ensures name in z && z == y[name := z[name]] && z[name].clock == y[name].clock
    ensures var d := y[name].doc; var k := Find(d, id);
            if 0 < k < |d| && !d[k].deleted then
              var p, q := LiveLength(d, k), LiveLength(d, k) + |d[k].value|;
              q <= |Text(d)| && Text(d)[p..q] == d[k].value && Text(z[name].doc) == Text(d)[..p] + Text(d)[q..]
            else Text(z[name].doc) == Text(d)
  {
    ErasedText(y[name].doc, id);
  }
}
