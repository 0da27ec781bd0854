/** The edit history of a document, on values: lines, block types, and what undo and redo make of them. */
module DocumentModel {
  type BlockType = int
  const Paragraph: BlockType := 0

  datatype Op = Insert(position: int, value: string) | Delete(position: int) | Format(position: int, block: BlockType)
              | Title(title: string) | Unknown

  datatype Text = Text(lines: seq<string>, blocks: seq<BlockType>)
  datatype Doc = Doc(title: string, text: Text, history: seq<Op>, historyIdx: int, version: int)

  const Empty := Text([], [])
  function New(title: string): Doc { Doc(title, Empty, [], 0, 0) }

  // ---------- slices ----------

  function InsertAt<T>(s: seq<T>, p: int, x: T): seq<T>
    requires 0 <= p
  {
    if p >= |s| then s + [x] else s[..p] + [x] + s[p..]
  }

  function RemoveAt<T>(s: seq<T>, p: int): seq<T>
    requires 0 <= p < |s|
  {
    s[..p] + s[p + 1..]
  }

  // ---------- one operation on the text ----------

  predicate Even(t: Text) { |t.lines| == |t.blocks| }

  predicate InRange(t: Text, op: Op) {
    match op
    case Insert(p, _) => 0 <= p <= |t.lines|
    case Delete(p) => 0 <= p < |t.lines|
    case Format(p, _) => 0 <= p < |t.blocks|
    case _ => false
  }

  /** The edit itself; an operation out of range changes nothing. */
  function Do(t: Text, op: Op): Text
    requires Even(t)
  {
    if !InRange(t, op) then t
    else
      match op
      case Insert(p, v) => Text(InsertAt(t.lines, p, v), InsertAt(t.blocks, p, Paragraph))
      case Delete(p) => Text(RemoveAt(t.lines, p), RemoveAt(t.blocks, p))
      case Format(p, b) => Text(t.lines, t.blocks[p := b])
  }

  /** What undo does instead of restoring: a deleted line comes back empty, a format becomes a paragraph. */
  function Undone(t: Text, op: Op): Text
    requires Even(t)
  {
    match op
    case Insert(p, _) => Do(t, Delete(p))
    case Delete(p) => Do(t, Insert(p, ""))
    case Format(p, _) => Do(t, Format(p, Paragraph))
    case _ => t
  }

  lemma DoEven(t: Text, op: Op)
    requires Even(t)
    ensures Even(Do(t, op)) && Even(Undone(t, op))
  {
  }

  // ---------- the document ----------

  predicate Recorded(op: Op) { (op.Insert? || op.Delete? || op.Format?) && op.position >= 0 }

  predicate Valid(d: Doc) {
    && Even(d.text)
    && 0 <= d.historyIdx <= |d.history|
    && (forall k :: 0 <= k < |d.history| ==> Recorded(d.history[k]))
  }

  function ApplyOp(d: Doc, op: Op): (r: (Doc, bool))
    requires Valid(d)
  {
    if InRange(d.text, op) then
      (Doc(d.title, Do(d.text, op), d.history + [op], |d.history| + 1, d.version + 1), true)
    else if op.Title? then (d.(title := op.title, version := d.version + 1), true)
    else (d, false)
  }

  function Undo(d: Doc): Doc
    requires Valid(d)
  {
    if d.historyIdx <= 0 then d
    else d.(historyIdx := d.historyIdx - 1, text := Undone(d.text, d.history[d.historyIdx - 1]), version := d.version + 1)
  }

  function Redo(d: Doc): Doc
    requires Valid(d)
  {
    if d.historyIdx >= |d.history| then d
    else d.(historyIdx := d.historyIdx + 1, text := Do(d.text, d.history[d.historyIdx]), version := d.version + 1)
  }

  // ---------- rebuilding after a merge ----------

  // The lines of a list of characters, the last one always present.
  function LinesOf(chars: seq<string>, current: string): (lines: seq<string>)
    ensures |lines| > 0
    decreases |chars|
  {
    if chars == [] then [current]
    else if chars[0] == "\n" then [current] + LinesOf(chars[1..], "")
    else LinesOf(chars[1..], current + chars[0])
  }

  /** The lines are those of the replicated list; block types stay where there are any. */
  function Rebuilt(t: Text, chars: seq<string>): (r: Text)
    ensures Even(r)
  {
    var lines := LinesOf(chars, "");
    Text(lines, seq(|lines|, k requires 0 <= k < |lines| => if k < |t.blocks| then t.blocks[k] else Paragraph))
  }

  function ApplyAll(d: Doc, ops: seq<Op>): (r: Doc)
    requires Valid(d)
    ensures Valid(r)
    decreases |ops|
  {
    if ops == [] then d
    else
      ApplyValid(d, ops[0]);
      ApplyAll(ApplyOp(d, ops[0]).0, ops[1..])
  }

  /** `chars` is what the replicated list holds once the operations are in. */
  function Merge(d: Doc, ops: seq<Op>, chars: seq<string>): (r: Doc)
    requires Valid(d)
    ensures Valid(r)
  {
    var e := ApplyAll(d, ops);
    e.(text := Rebuilt(e.text, chars))
  }

  /** Which operations a document takes, and what its lines and block types are then. */
  lemma {:induction false} EditShows(d: Doc, op: Op, e: Doc, ok: bool, lines: seq<string>, blocks: seq<BlockType>)
    requires Valid(d) && (e, ok) == ApplyOp(d, op) && lines == d.text.lines && blocks == d.text.blocks
    ensures op.Insert? ==> (ok <==> 0 <= op.position <= |lines|)
    ensures op.Delete? || op.Format? ==> (ok <==> 0 <= op.position < |lines|)
    ensures (op.Title? ==> ok && e == d.(title := op.title, version := d.version + 1)) && (op.Unknown? ==> !ok)
    ensures ok && op.Insert? ==> e.text.lines == lines[..op.position] + [op.value] + lines[op.position..]
    ensures ok && op.Insert? ==> e.text.blocks == blocks[..op.position] + [0] + blocks[op.position..]
    ensures ok && op.Delete? ==> e.text.lines == lines[..op.position] + lines[op.position + 1..]
    ensures ok && op.Delete? ==> e.text.blocks == blocks[..op.position] + blocks[op.position + 1..]
    ensures ok && op.Format? ==> e.text == Text(lines, blocks[op.position := op.block])
    ensures ok && !op.Title? ==> e.history == d.history + [op] && e.historyIdx == |e.history|
    ensures !ok ==> e == d
  {
    if op.Insert? && op.position == |lines| {
      assert lines[..op.position] == lines && lines[op.position..] == [];
      assert blocks[..op.position] == blocks && blocks[op.position..] == [];
    }
  }

  // ---------- every run is valid ----------

  lemma ApplyValid(d: Doc, op: Op)
    requires Valid(d)
    ensures Valid(ApplyOp(d, op).0)
  {
    DoEven(d.text, op);
  }

  lemma UndoRedoValid(d: Doc)
    requires Valid(d)
    ensures Valid(Undo(d)) && Valid(Redo(d))
  {
    if d.historyIdx > 0 {
      DoEven(d.text, d.history[d.historyIdx - 1]);
    }
    if d.historyIdx < |d.history| {
      DoEven(d.text, d.history[d.historyIdx]);
    }
  }

  datatype Call = Edit(op: Op) | MergeCall(ops: seq<Op>, chars: seq<string>) | UndoCall | RedoCall

  function Step(d: Doc, c: Call): (r: Doc)
    requires Valid(d)
    ensures Valid(r)
  {
    ApplyValid(d, if c.Edit? then c.op else Unknown);
    UndoRedoValid(d);
    match c
    case Edit(op) => ApplyOp(d, op).0
    case MergeCall(ops, chars) => Merge(d, ops, chars)
    case UndoCall => Undo(d)
    case RedoCall => Redo(d)
  }

  /** In every run, of any mix of edits, merges, undos and redos: as many block types as lines, and the
      history position inside the history. */
  function Run(d: Doc, calls: seq<Call>): (r: Doc)
    requires Valid(d)
    ensures Valid(r)
    decreases |calls|
  {
    if calls == [] then d else Run(Step(d, calls[0]), calls[1..])
  }

  // ---------- k undos, k redos ----------

  function Undos(d: Doc, k: nat): (r: Doc)
    requires Valid(d)
    ensures Valid(r)
    decreases k
  {
    UndoRedoValid(d);
    if k == 0 then d else Undos(Undo(d), k - 1)
  }

  function Redos(d: Doc, k: nat): (r: Doc)
    requires Valid(d)
    ensures Valid(r)
    decreases k
  {
    UndoRedoValid(d);
    if k == 0 then d else Redos(Redo(d), k - 1)
  }

  // The operations on the text alone, and whether each is in range.
  function Replay(t: Text, ops: seq<Op>): (r: Text)
    requires Even(t)
    ensures Even(r)
    decreases |ops|
  {
    if ops == [] then t
    else
      DoEven(t, ops[0]);
      Replay(Do(t, ops[0]), ops[1..])
  }

  predicate AllInRange(t: Text, ops: seq<Op>)
    requires Even(t)
    decreases |ops|
  {
    ops == [] || (InRange(t, ops[0]) && (DoEven(t, ops[0]); AllInRange(Do(t, ops[0]), ops[1..])))
  }

  predicate SameSize(s: Text, t: Text) { |s.lines| == |t.lines| && |s.blocks| == |t.blocks| }

  /** Every line and block type of m is that of s or that of t. */
  predicate Between(s: Text, m: Text, t: Text) {
    && SameSize(s, m) && SameSize(m, t)
    && (forall k :: 0 <= k < |m.lines| ==> m.lines[k] == s.lines[k] || m.lines[k] == t.lines[k])
    && (forall k :: 0 <= k < |m.blocks| ==> m.blocks[k] == s.blocks[k] || m.blocks[k] == t.blocks[k])
  }

  lemma DoSameSize(s: Text, t: Text, op: Op)
    requires Even(s) && Even(t) && SameSize(s, t)
    ensures SameSize(Do(s, op), Do(t, op)) && (InRange(s, op) <==> InRange(t, op))
  {
  }

  lemma DoBetween(s: Text, m: Text, t: Text, op: Op)
    requires Even(s) && Even(m) && Even(t) && Between(s, m, t)
    ensures Between(Do(s, op), Do(m, op), Do(t, op))
  {
    DoSameSize(s, m, op);
    DoSameSize(m, t, op);
  }

  lemma {:induction false} ReplayBetween(s: Text, m: Text, t: Text, ops: seq<Op>)
    requires Even(s) && Even(m) && Even(t) && Between(s, m, t)
    ensures Between(Replay(s, ops), Replay(m, ops), Replay(t, ops))
    decreases |ops|
  {
    if ops != [] {
      DoEven(s, ops[0]);
      DoEven(m, ops[0]);
      DoEven(t, ops[0]);
      DoBetween(s, m, t, ops[0]);
      ReplayBetween(Do(s, ops[0]), Do(m, ops[0]), Do(t, ops[0]), ops[1..]);
    }
  }

  // Two texts with one future share it with everything between them.
  lemma ReplaySqueezed(s: Text, m: Text, t: Text, ops: seq<Op>)
    requires Even(s) && Even(m) && Even(t) && Between(s, m, t) && Replay(s, ops) == Replay(t, ops)
    ensures Replay(m, ops) == Replay(t, ops)
  {
    ReplayBetween(s, m, t, ops);
  }

  lemma RemoveInsert<T>(s: seq<T>, p: int, x: T)
    requires 0 <= p < |s|
    ensures InsertAt(RemoveAt(s, p), p, x) == s[p := x]
  {
  }

  lemma InsertRemove<T>(s: seq<T>, p: int, x: T)
    requires 0 <= p <= |s|
    ensures |InsertAt(s, p, x)| == |s| + 1 && InsertAt(s, p, x)[p] == x && RemoveAt(InsertAt(s, p, x), p) == s
  {
  }

  // Redoing what was just undone brings the text closer to what the operation first made.
  lemma RedoneBetween(before: Text, op: Op, t: Text)
    requires Even(before) && InRange(before, op) && Even(t) && SameSize(t, Do(before, op))
    ensures var u := Undone(t, op);
            && Even(u) && SameSize(u, before) && Between(t, Do(u, op), Do(before, op))
  {
    DoEven(t, op);
    match op
    case Insert(p, v) =>
      InsertRemove(before.lines, p, v);
      InsertRemove(before.blocks, p, Paragraph);
      RemoveInsert(t.lines, p, v);
      RemoveInsert(t.blocks, p, Paragraph);
      assert Do(Undone(t, op), op) == Text(t.lines[p := v], t.blocks[p := Paragraph]);
    case Delete(p) =>
      InsertRemove(t.lines, p, "");
      InsertRemove(t.blocks, p, Paragraph);
      assert Do(Undone(t, op), op) == t;
    case Format(p, b) =>
      assert Do(Undone(t, op), op) == Text(t.lines, t.blocks[p := b]);
  }

  /** The text after undoing operations one by one, the last first. */
  function UndoneAll(t: Text, ops: seq<Op>): (r: Text)
    requires Even(t)
    ensures Even(r)
    decreases |ops|
  {
    if ops == [] then t
    else
      DoEven(t, ops[|ops| - 1]);
      UndoneAll(Undone(t, ops[|ops| - 1]), ops[..|ops| - 1])
  }

  lemma {:induction false} ReplaySplit(t: Text, a: seq<Op>, b: seq<Op>)
    requires Even(t)
    ensures Replay(t, a + b) == Replay(Replay(t, a), b)
    ensures AllInRange(t, a + b) <==> AllInRange(t, a) && AllInRange(Replay(t, a), b)
    decreases |a|
  {
    if a == [] {
      assert a + b == b;
    } else {
      DoEven(t, a[0]);
      assert (a + b)[1..] == a[1..] + b;
      ReplaySplit(Do(t, a[0]), a[1..], b);
    }
  }

  // Undoing the last operation keeps the future: replayed, it ends where the original does.
  lemma UndoneOnce(before: Text, op: Op, t: Text, future: seq<Op>)
    requires Even(before) && InRange(before, op) && Even(t)
    requires SameSize(t, Do(before, op)) && Even(Do(before, op)) && Replay(t, future) == Replay(Do(before, op), future)
    ensures var u := Undone(t, op);
            && Even(u) && SameSize(u, before) && Replay(u, [op] + future) == Replay(before, [op] + future)
  {
    var u := Undone(t, op);
    RedoneBetween(before, op, t);
    DoEven(u, op);
    ReplaySqueezed(t, Do(u, op), Do(before, op), future);
    assert ([op] + future)[1..] == future;
  }

  /** Undo need not restore the text, but what it leaves has the same future as the text it should be. */
  lemma {:induction false} UndoneKeepsFuture(before: Text, ops: seq<Op>, t: Text, future: seq<Op>)
    requires Even(before) && AllInRange(before, ops) && Even(t)
    requires SameSize(t, Replay(before, ops)) && Replay(t, future) == Replay(Replay(before, ops), future)
    ensures SameSize(UndoneAll(t, ops), before)
    ensures Replay(UndoneAll(t, ops), ops + future) == Replay(before, ops + future)
    decreases |ops|
  {
    if ops == [] {
      assert ops + future == future;
    } else {
      var n := |ops| - 1;
      var init, last := ops[..n], ops[n];
      assert ops == init + [last];
      ReplaySplit(before, init, [last]);
      var s := Replay(before, init);
      assert InRange(s, last);
      DoEven(s, last);
      assert Replay(s, [last]) == Do(s, last);
      UndoneOnce(s, last, t, future);
      UndoneKeepsFuture(before, init, Undone(t, last), [last] + future);
      assert init + ([last] + future) == ops + future;
    }
  }

  // ---------- the document again ----------

  // The operations of the history from position i on are those last applied, and give the text.
  ghost predicate Recent(d: Doc, before: Text, ops: seq<Op>) {
    && Even(before) && AllInRange(before, ops) && Replay(before, ops) == d.text
    && |ops| <= |d.history| && d.history[|d.history| - |ops|..] == ops && d.historyIdx == |d.history|
  }

  lemma {:induction false} AppliedRecent(d: Doc, ops: seq<Op>)
    requires Valid(d) && AllInRange(d.text, ops)
    ensures ops != [] ==> Recent(ApplyAll(d, ops), d.text, ops)
    ensures ApplyAll(d, ops).text == Replay(d.text, ops) && ApplyAll(d, ops).history == d.history + ops
    decreases |ops|
  {
    if ops != [] {
      ApplyValid(d, ops[0]);
      var e := ApplyOp(d, ops[0]).0;
      AppliedRecent(e, ops[1..]);
      assert d.history + [ops[0]] + ops[1..] == d.history + ops;
    }
  }

  lemma LastOfSlice<T>(h: seq<T>, i: nat, j: nat, s: seq<T>)
    requires i < j <= |h| && s == h[i..j]
    ensures |s| == j - i && h[i..j - 1] == s[..|s| - 1] && h[j - 1] == s[|s| - 1]
  {
  }

  lemma {:induction false} UndosText(d: Doc, ops: seq<Op>, i: nat)
    requires Valid(d) && i + |ops| == d.historyIdx && d.history[i..d.historyIdx] == ops
    ensures Undos(d, |ops|).text == UndoneAll(d.text, ops)
    ensures Undos(d, |ops|).historyIdx == i && Undos(d, |ops|).history == d.history && Undos(d, |ops|).title == d.title
    decreases |ops|
  {
    if ops != [] {
      var n, before := |ops| - 1, Undo(d);
      LastOfSlice(d.history, i, d.historyIdx, ops);
      UndoneFirst(d, n, before);
      UndosText(before, ops[..n], i);
    }
  }

  lemma {:induction false} UndoneFirst(d: Doc, n: nat, before: Doc)
    requires Valid(d) && d.historyIdx > 0 && before == Undo(d)
    ensures Valid(before) && Undos(d, n + 1) == Undos(before, n)
    ensures before.historyIdx == d.historyIdx - 1 && before.history == d.history && before.title == d.title
    ensures before.text == Undone(d.text, d.history[d.historyIdx - 1])
  {
    UndoRedoValid(d);
  }

  lemma {:induction false} RedosText(d: Doc, ops: seq<Op>)
    requires Valid(d) && d.historyIdx + |ops| <= |d.history| && d.history[d.historyIdx..d.historyIdx + |ops|] == ops
    ensures Redos(d, |ops|).text == Replay(d.text, ops)
    ensures Redos(d, |ops|).historyIdx == d.historyIdx + |ops| && Redos(d, |ops|).history == d.history && Redos(d, |ops|).title == d.title
    decreases |ops|
  {
    if ops != [] {
      UndoRedoValid(d);
      assert d.history[d.historyIdx] == ops[0];
      RedosText(Redo(d), ops[1..]);
    }
  }

  /** After any successful inserts, deletes and format changes on any document, k undos and k redos restore
      lines, block types and history position exactly, for every k up to the number of operations. */
  lemma UndoRedoRestores(d: Doc, ops: seq<Op>, k: nat)
    requires Valid(d) && AllInRange(d.text, ops) && k <= |ops|
    ensures var e := ApplyAll(d, ops); Redos(Undos(e, k), k) == e.(version := Redos(Undos(e, k), k).version)
  {
    if k > 0 {
      AppliedLast(d, ops, |ops| - k);
      LastRestored(ApplyAll(d, ops), Replay(d.text, ops[..|ops| - k]), ops[|ops| - k..]);
    }
  }

  // The last operations applied end the history, and give the text.
  lemma AppliedLast(d: Doc, ops: seq<Op>, i: nat)
    requires Valid(d) && AllInRange(d.text, ops) && i < |ops|
    ensures var e := ApplyAll(d, ops); var last := ops[i..];
            && |last| <= e.historyIdx == |e.history| && e.history[|e.history| - |last|..] == last
            && AllInRange(Replay(d.text, ops[..i]), last) && Replay(Replay(d.text, ops[..i]), last) == e.text
  {
    AppliedRecent(d, ops);
    assert ops == ops[..i] + ops[i..];
    ReplaySplit(d.text, ops[..i], ops[i..]);
    var h := ApplyAll(d, ops).history;
    assert h == d.history + ops;
  }

  lemma LastRestored(e: Doc, before: Text, last: seq<Op>)
    requires Valid(e) && Even(before) && AllInRange(before, last) && Replay(before, last) == e.text
    requires |last| <= e.historyIdx == |e.history| && e.history[|e.history| - |last|..] == last
    ensures Redos(Undos(e, |last|), |last|) == e.(version := Redos(Undos(e, |last|), |last|).version)
  {
    var n := |last|;
    UndosText(e, last, e.historyIdx - n);
    var u := Undos(e, n);
    RedosText(u, last);
    UndoneKeepsFuture(before, last, e.text, []);
    assert last + [] == last;
  }

  /** On a document without a history, such as a new one, any number of undos will do: those past the first
      operation change nothing. */
  lemma NewDocumentRestores(d: Doc, ops: seq<Op>, k: nat)
    requires Valid(d) && d.history == [] && AllInRange(d.text, ops)
    ensures var e := ApplyAll(d, ops); Redos(Undos(e, k), k) == e.(version := Redos(Undos(e, k), k).version)
  {
    var n := |ops|;
    if k <= n {
      UndoRedoRestores(d, ops, k);
    } else {
      UndoRedoRestores(d, ops, n);
      AllUndone(d, ops);
      PastTheEnds(ApplyAll(d, ops), n, k);
    }
  }

  lemma AllUndone(d: Doc, ops: seq<Op>)
    requires Valid(d) && d.history == [] && AllInRange(d.text, ops)
    ensures var e := ApplyAll(d, ops); e.historyIdx == |e.history| && Undos(e, |ops|).historyIdx == 0
  {
    var e := ApplyAll(d, ops);
    AppliedRecent(d, ops);
    assert d.history + ops == ops;
    assert e.history[0..e.historyIdx] == ops;
    UndosText(e, ops, 0);
  }

  lemma PastTheEnds(e: Doc, n: nat, k: nat)
    requires Valid(e) && n <= k && Undos(e, n).historyIdx == 0
    requires Redos(Undos(e, n), n).historyIdx == |Redos(Undos(e, n), n).history|
    ensures Redos(Undos(e, k), k) == Redos(Undos(e, n), n)
  {
    var u := Undos(e, n);
    UndosAdd(e, n, k - n);
    UndosIdle(u, k - n);
    RedosAdd(u, n, k - n);
    RedosIdle(Redos(u, n), k - n);
  }

  lemma {:induction false} UndosAdd(d: Doc, a: nat, b: nat)
    requires Valid(d)
    ensures Undos(d, a + b) == Undos(Undos(d, a), b)
    decreases a
  {
    if a > 0 {
      UndoRedoValid(d);
      UndosAdd(Undo(d), a - 1, b);
    }
  }

  lemma {:induction false} RedosAdd(d: Doc, a: nat, b: nat)
    requires Valid(d)
    ensures Redos(d, a + b) == Redos(Redos(d, a), b)
    decreases a
  {
    if a > 0 {
      UndoRedoValid(d);
      RedosAdd(Redo(d), a - 1, b);
    }
  }

  lemma {:induction false} UndosIdle(d: Doc, k: nat)
    requires Valid(d) && d.historyIdx == 0
    ensures Undos(d, k) == d
  {
    if k > 0 {
      UndosIdle(d, k - 1);
    }
  }

  lemma {:induction false} RedosIdle(d: Doc, k: nat)
    requires Valid(d) && d.historyIdx == |d.history|
    ensures Redos(d, k) == d
  {
    if k > 0 {
      RedosIdle(d, k - 1);
    }
  }

  /** One undo restores the text exactly when nothing was lost: an insert always, a delete of an empty
      paragraph, a format of what was a paragraph. */
  lemma UndoRestoresIff(t: Text, op: Op)
    requires Even(t) && InRange(t, op)
    ensures Even(Do(t, op))
    ensures Undone(Do(t, op), op) == t <==>
              match op
              case Insert(_, _) => true
              case Delete(p) => t.lines[p] == "" && t.blocks[p] == Paragraph
              case Format(p, _) => t.blocks[p] == Paragraph
  {
    DoEven(t, op);
    match op
    case Insert(p, v) =>
      InsertRemove(t.lines, p, v);
      InsertRemove(t.blocks, p, Paragraph);
    case Delete(p) =>
      RemoveInsert(t.lines, p, "");
      RemoveInsert(t.blocks, p, Paragraph);
      assert Undone(Do(t, op), op) == Text(t.lines[p := ""], t.blocks[p := Paragraph]);
      assert t.lines[p := ""][p] == "" && t.blocks[p := Paragraph][p] == Paragraph;
    case Format(p, b) =>
      assert Undone(Do(t, op), op) == Text(t.lines, t.blocks[p := Paragraph]);
      assert t.blocks[p := Paragraph][p] == Paragraph;
  }

  lemma TwoUndos(d: Doc)
    requires Valid(d)
    ensures Valid(Undo(d)) && Undos(d, 2) == Undo(Undo(d))
  {
    UndoRedoValid(d);
    UndoRedoValid(Undo(d));
    assert Undos(Undo(d), 1) == Undos(Undo(Undo(d)), 0);
  }

  lemma TwoRedos(d: Doc)
    requires Valid(d)
    ensures Valid(Redo(d)) && Redos(d, 2) == Redo(Redo(d))
  {
    UndoRedoValid(d);
    UndoRedoValid(Redo(d));
    assert Redos(Redo(d), 1) == Redos(Redo(Redo(d)), 0);
  }

  // ---------- an edit after undos ----------

  // The text with one line or block type overwritten.
  function Overwritten(t: Text, op: Op, v: string, b: BlockType): Text
    requires Even(t) && InRange(t, op) && (op.Insert? ==> op.position < |t.lines|)
  {
    Text(if op.Format? then t.lines else t.lines[op.position := v], t.blocks[op.position := b])
  }

  // Done and undone, an operation leaves its mark.
  function Marked(t: Text, op: Op): (r: Text)
    requires Even(t) && InRange(t, op)
    ensures SameSize(r, t)
  {
    if op.Insert? then t else Overwritten(t, op, "", Paragraph)
  }

  lemma DoneUndone(t: Text, op: Op)
    requires Even(t) && InRange(t, op)
    ensures Even(Do(t, op)) && Undone(Do(t, op), op) == Marked(t, op)
  {
    match op
    case Insert(p, v) =>
      InsertRemove(t.lines, p, v);
      InsertRemove(t.blocks, p, Paragraph);
    case Delete(p) =>
      RemoveInsert(t.lines, p, "");
      RemoveInsert(t.blocks, p, Paragraph);
    case Format(p, b) =>
  }

  // Undone once more and done again, an operation puts its line or block type where it was.
  function Rewritten(t: Text, op: Op): Text
    requires Even(t)
  {
    match op
    case Insert(p, v) => if 0 <= p < |t.lines| then Overwritten(t, op, v, Paragraph) else Do(t, op)
    case Format(p, b) => if 0 <= p < |t.lines| then Overwritten(t, op, "", b) else t
    case _ => t
  }

  lemma UndoneDone(t: Text, op: Op)
    requires Even(t) && Recorded(op)
    ensures Even(Undone(t, op)) && Do(Undone(t, op), op) == Rewritten(t, op)
  {
    DoEven(t, op);
    match op
    case Insert(p, v) =>
      if p < |t.lines| {
        RemoveInsert(t.lines, p, v);
        RemoveInsert(t.blocks, p, Paragraph);
      }
    case Delete(p) =>
      if p <= |t.lines| {
        InsertRemove(t.lines, p, "");
        InsertRemove(t.blocks, p, Paragraph);
      }
    case Format(p, b) =>
  }

  // The two texts agree wherever the operation leaves them as they are.
  ghost predicate AgreeAround(t: Text, u: Text, op: Op) {
    && SameSize(t, u)
    && (forall i :: 0 <= i < |t.lines| ==> t.lines[i] == u.lines[i] || (op.Delete? && i == op.position))
    && (forall i :: 0 <= i < |t.blocks| ==> t.blocks[i] == u.blocks[i] || ((op.Delete? || op.Format?) && i == op.position))
  }

  lemma RemovedAlike<T>(a: seq<T>, b: seq<T>, p: int)
    requires |a| == |b| && 0 <= p < |a|
    ensures RemoveAt(a, p) == RemoveAt(b, p) <==> forall i :: 0 <= i < |a| ==> a[i] == b[i] || i == p
  {
    var x, y := RemoveAt(a, p), RemoveAt(b, p);
    assert forall i :: 0 <= i < |x| ==> x[i] == (if i < p then a[i] else a[i + 1]) && y[i] == (if i < p then b[i] else b[i + 1]);
    if x == y {
      forall i | 0 <= i < |a| && i != p
        ensures a[i] == b[i]
      {
        assert x[if i < p then i else i - 1] == y[if i < p then i else i - 1];
      }
    }
  }

  lemma UpdatedAlike<T>(a: seq<T>, b: seq<T>, p: int, x: T)
    requires |a| == |b| && 0 <= p < |a|
    ensures a[p := x] == b[p := x] <==> forall i :: 0 <= i < |a| ==> a[i] == b[i] || i == p
  {
    if a[p := x] == b[p := x] {
      forall i | 0 <= i < |a| && i != p
        ensures a[i] == b[i]
      {
        assert a[p := x][i] == b[p := x][i];
      }
    }
  }

  lemma InsertedAlike<T>(a: seq<T>, b: seq<T>, p: int, x: T)
    requires |a| == |b| && 0 <= p <= |a|
    ensures InsertAt(a, p, x) == InsertAt(b, p, x) <==> forall i :: 0 <= i < |a| ==> a[i] == b[i]
  {
    InsertRemove(a, p, x);
    InsertRemove(b, p, x);
    assert a == b <==> forall i :: 0 <= i < |a| ==> a[i] == b[i];
  }

  lemma DoAlike(t: Text, u: Text, op: Op)
    requires Even(t) && Even(u) && |t.lines| >= |u.lines| && InRange(u, op)
    ensures Do(t, op) == Do(u, op) <==> AgreeAround(t, u, op)
  {
    if |t.lines| > |u.lines| {
      assert |Do(t, op).lines| > |Do(u, op).lines|;
      return;
    }
    match op
    case Insert(p, v) =>
      InsertedAlike(t.lines, u.lines, p, v);
      InsertedAlike(t.blocks, u.blocks, p, Paragraph);
    case Delete(p) =>
      RemovedAlike(t.lines, u.lines, p);
      RemovedAlike(t.blocks, u.blocks, p);
    case Format(p, b) =>
      UpdatedAlike(t.blocks, u.blocks, p, b);
      assert t.lines == u.lines <==> forall i :: 0 <= i < |t.lines| ==> t.lines[i] == u.lines[i];
  }

  /** Redoing o in front of n would change nothing that n leaves: its line is there already or out of reach, its
      block type is there already or out of reach, it is a delete, or n overwrites what it does. */
  predicate Harmless(u: Text, o: Op, n: Op)
    requires Even(u)
  {
    match o
    case Insert(p, v) =>
      p > |u.lines| || (0 <= p < |u.lines|
        && ((n.Delete? && n.position == p)
          || (u.lines[p] == v && (u.blocks[p] == Paragraph || (n.Format? && n.position == p)))))
    case Format(p, b) => 0 <= p < |u.blocks| ==> u.blocks[p] == b || ((n.Delete? || n.Format?) && n.position == p)
    case _ => true
  }

  lemma RewrittenAlike(u: Text, o: Op, n: Op)
    requires Even(u) && Recorded(o) && InRange(u, n)
    ensures AgreeAround(Rewritten(Marked(u, n), o), u, n) <==> Harmless(u, o, n)
  {
    var x := Marked(u, n);
    var y := Rewritten(x, o);
    if o.Insert? && o.position < |u.lines| {
      assert y.lines[o.position] == o.value && y.blocks[o.position] == Paragraph;
    } else if o.Format? && o.position < |u.lines| {
      assert y.blocks[o.position] == o.block;
    }
  }

  /** An edit leaves what has been undone in the history, behind which it is recorded. On any document, however
      many undos came before: after an edit n, two undos and two redos restore the text if and only if the
      operation o recorded before n is harmless in front of it. */
  lemma EditAfterUndoIff(d: Doc, n: Op)
    requires Valid(d) && |d.history| > 0 && InRange(d.text, n)
    ensures Valid(ApplyOp(d, n).0)
    ensures var e := ApplyOp(d, n).0;
            Redos(Undos(e, 2), 2).text == e.text <==> Harmless(d.text, d.history[|d.history| - 1], n)
  {
    var u, o := d.text, d.history[|d.history| - 1];
    ApplyValid(d, n);
    var e := ApplyOp(d, n).0;
    DoneUndone(u, n);
    var x := Marked(u, n);
    UndoRedoValid(e);
    TwoUndos(e);
    var e1 := Undo(e);
    var e2 := Undo(e1);
    assert e1.text == x && e1.history[e1.historyIdx - 1] == o;
    UndoneDone(x, o);
    UndoRedoValid(e1);
    TwoRedos(e2);
    var y := Rewritten(x, o);
    DoEven(Undone(x, o), o);
    assert Redo(e2).text == y && Redos(e2, 2).text == Do(y, n);
    DoAlike(y, u, n);
    RewrittenAlike(u, o, n);
  }

  /** In particular after k undos, whatever k: the operation is the last of the history, undone or not. */
  lemma {:induction false} EditAfterUndosIff(d: Doc, k: nat, n: Op, u: Doc, e: Doc)
    requires Valid(d) && |d.history| > 0 && u == Undos(d, k) && InRange(u.text, n) && e == ApplyOp(u, n).0
    ensures Valid(e) && (Redos(Undos(e, 2), 2).text == e.text <==> Harmless(u.text, d.history[|d.history| - 1], n))
  {
    UndosHistory(d, k);
    EditAfterUndoIff(u, n);
  }

  lemma {:induction false} UndosHistory(d: Doc, k: nat)
    requires Valid(d)
    ensures Undos(d, k).history == d.history
    decreases k
  {
    if k > 0 {
      UndoRedoValid(d);
      UndosHistory(Undo(d), k - 1);
    }
  }

  // ---------- what a merge shows ----------

  function Flat(chars: seq<string>): string { if chars == [] then "" else chars[0] + Flat(chars[1..]) }

  // The lines with a line break between each and the next.
  function JoinLines(lines: seq<string>): string
    requires |lines| > 0
  {
    if |lines| == 1 then lines[0] else lines[0] + "\n" + JoinLines(lines[1..])
  }

  predicate Unbroken(s: string) { '\n' !in s }

  // A line break is a character of its own.
  predicate Separate(chars: seq<string>) { forall k :: 0 <= k < |chars| && chars[k] != "\n" ==> Unbroken(chars[k]) }

  lemma {:induction false} LinesJoin(chars: seq<string>, current: string)
    ensures JoinLines(LinesOf(chars, current)) == current + Flat(chars)
    decreases |chars|
  {
    if chars == [] {
      assert current + "" == current;
    } else if chars[0] == "\n" {
      LinesJoin(chars[1..], "");
      var rest := LinesOf(chars[1..], "");
      assert ([current] + rest)[1..] == rest;
      assert "" + Flat(chars[1..]) == Flat(chars[1..]);
      assert current + "\n" + Flat(chars[1..]) == current + ("\n" + Flat(chars[1..]));
    } else {
      LinesJoin(chars[1..], current + chars[0]);
      assert current + chars[0] + Flat(chars[1..]) == current + (chars[0] + Flat(chars[1..]));
    }
  }

  lemma {:induction false} LinesUnbroken(chars: seq<string>, current: string)
    requires Separate(chars) && Unbroken(current)
    ensures forall k :: 0 <= k < |LinesOf(chars, current)| ==> Unbroken(LinesOf(chars, current)[k])
    decreases |chars|
  {
    if chars != [] {
      assert Separate(chars[1..]);
      LinesUnbroken(chars[1..], if chars[0] == "\n" then "" else current + chars[0]);
    }
  }

  /** A rebuilt document shows exactly the characters of the list: its lines, none broken, joined by line breaks. Block
      types stay where there were any and are paragraphs elsewhere. */
  lemma RebuiltShows(t: Text, chars: seq<string>)
    ensures var r := Rebuilt(t, chars);
            && |r.lines| > 0 && JoinLines(r.lines) == Flat(chars) && |r.blocks| == |r.lines|
            && (Separate(chars) ==> forall k :: 0 <= k < |r.lines| ==> Unbroken(r.lines[k]))
            && forall k :: 0 <= k < |r.lines| ==> r.blocks[k] == if k < |t.blocks| then t.blocks[k] else Paragraph
  {
    LinesJoin(chars, "");
    assert "" + Flat(chars) == Flat(chars);
    if Separate(chars) {
      LinesUnbroken(chars, "");
    }
  }

  /** A merged document shows the characters of the list, with the block types the operations left. */
  lemma {:induction false} MergeShows(d: Doc, ops: seq<Op>, chars: seq<string>)
    requires Valid(d)
    ensures var e, r := ApplyAll(d, ops), Merge(d, ops, chars);
            && |r.text.lines| > 0 && JoinLines(r.text.lines) == Flat(chars) && |r.text.blocks| == |r.text.lines|
            && (forall k :: 0 <= k < |r.text.lines| ==> r.text.blocks[k] == if k < |e.text.blocks| then e.text.blocks[k] else Paragraph)
            && r == e.(text := r.text)
  {
    RebuiltShows(ApplyAll(d, ops).text, chars);
  }

  // ---------- title, version and history over runs ----------

  function LastTitleOf(title: string, ops: seq<Op>): string
    decreases |ops|
  {
    if ops == [] then title else LastTitleOf(if ops[0].Title? then ops[0].title else title, ops[1..])
  }

  /** The title given last. */
  function LastTitle(title: string, calls: seq<Call>): string
    decreases |calls|
  {
    if calls == [] then title
    else
      var next := match calls[0]
                  case Edit(op) => if op.Title? then op.title else title
                  case MergeCall(ops, _) => LastTitleOf(title, ops)
                  case _ => title;
      LastTitle(next, calls[1..])
  }

  predicate Accepts(d: Doc, op: Op) { InRange(d.text, op) || op.Title? }

  function AcceptedOf(d: Doc, ops: seq<Op>): nat
    requires Valid(d)
    decreases |ops|
  {
    if ops == [] then 0
    else
      ApplyValid(d, ops[0]);
      (if Accepts(d, ops[0]) then 1 else 0) + AcceptedOf(ApplyOp(d, ops[0]).0, ops[1..])
  }

  /** How many operations, undos and redos of the calls take effect. */
  function Effective(d: Doc, calls: seq<Call>): nat
    requires Valid(d)
    decreases |calls|
  {
    if calls == [] then 0
    else
      var n := match calls[0]
               case Edit(op) => if Accepts(d, op) then 1 else 0
               case MergeCall(ops, _) => AcceptedOf(d, ops)
               case UndoCall => if d.historyIdx > 0 then 1 else 0
               case RedoCall => if d.historyIdx < |d.history| then 1 else 0;
      n + Effective(Step(d, calls[0]), calls[1..])
  }

  lemma {:induction false} AllApplied(d: Doc, ops: seq<Op>)
    requires Valid(d)
    ensures var e := ApplyAll(d, ops);
            e.title == LastTitleOf(d.title, ops) && e.version == d.version + AcceptedOf(d, ops) && d.history <= e.history
    decreases |ops|
  {
    if ops != [] {
      ApplyValid(d, ops[0]);
      AllApplied(ApplyOp(d, ops[0]).0, ops[1..]);
    }
  }

  lemma StepCounts(d: Doc, c: Call)
    requires Valid(d)
    ensures var e := Step(d, c);
            e.title == LastTitle(d.title, [c]) && e.version == d.version + Effective(d, [c]) && d.history <= e.history
  {
    assert [c][1..] == [];
    assert Effective(Step(d, c), []) == 0;
    match c
    case MergeCall(ops, chars) => AllApplied(d, ops);
    case _ =>
  }

  /** In every run: the title is the one given last, the version counts what took effect, and nothing leaves the
      history. */
  lemma {:induction false} RunCounts(d: Doc, calls: seq<Call>)
    requires Valid(d)
    ensures var e := Run(d, calls);
            e.title == LastTitle(d.title, calls) && e.version == d.version + Effective(d, calls) && d.history <= e.history
    decreases |calls|
  {
    if calls != [] {
      var e, c := Step(d, calls[0]), calls[0];
      StepCounts(d, c);
      assert [c][1..] == [];
      assert Effective(e, []) == 0;
      RunCounts(e, calls[1..]);
    }
  }
}
