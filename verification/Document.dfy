/** The document object: every method changes its fields as the functions on values say. */
module Document {
  import M = DocumentModel

  class Document {
    var title: string
    var lines: seq<string>
    var blockTypes: seq<M.BlockType>
    var history: seq<M.Op>
    var historyIdx: int
    var version: int

    ghost function View(): M.Doc
      reads this
    {
      M.Doc(title, M.Text(lines, blockTypes), history, historyIdx, version)
    }

    constructor (name: string)
      ensures M.Valid(View()) && View() == M.New(name)
    {
      title, lines, blockTypes, history, historyIdx, version := name, [], [], [], 0, 0;
    }

    method ApplyInsert(op: M.Op) returns (applied: bool)
      requires M.Valid(View()) && op.Insert?
      modifies this
      ensures (View(), applied) == M.ApplyOp(old(View()), op)
    {
      if op.position < 0 || op.position > |lines| {
        return false;
      }
      lines := InsertSlice(lines, op.position, op.value);
      blockTypes := InsertSlice(blockTypes, op.position, M.Paragraph);
      version := version + 1;
      history := history + [op];
      historyIdx := |history|;
      return true;
    }

    method ApplyDelete(op: M.Op) returns (applied: bool)
      requires M.Valid(View()) && op.Delete?
      modifies this
      ensures (View(), applied) == M.ApplyOp(old(View()), op)
    {
      if op.position < 0 || op.position >= |lines| {
        return false;
      }
      lines := lines[..op.position] + lines[op.position + 1..];
      blockTypes := blockTypes[..op.position] + blockTypes[op.position + 1..];
      version := version + 1;
      history := history + [op];
      historyIdx := |history|;
      return true;
    }

    method ApplyFormatBlock(op: M.Op) returns (applied: bool)
      requires M.Valid(View()) && op.Format?
      modifies this
      ensures (View(), applied) == M.ApplyOp(old(View()), op)
    {
      if op.position < 0 || op.position >= |blockTypes| {
        return false;
      }
      blockTypes := blockTypes[op.position := op.block];
      version := version + 1;
      history := history + [op];
      historyIdx := |history|;
      return true;
    }

    method ApplyOp(op: M.Op) returns (applied: bool)
      requires M.Valid(View())
      modifies this
      ensures M.Valid(View()) && (View(), applied) == M.ApplyOp(old(View()), op)
    {
      M.ApplyValid(View(), op);
      match op
      case Insert(_, _) => applied := ApplyInsert(op);
      case Delete(_) => applied := ApplyDelete(op);
      case Format(_, _) => applied := ApplyFormatBlock(op);
      case Title(t) =>
        title := t;
        version := version + 1;
        applied := true;
      case Unknown => applied := false;
    }

    /** Lines from the replicated list's characters, block types kept where there are any. */
    method RebuildFromRGA(chars: seq<string>)
      requires M.Valid(View())
      modifies this
      ensures M.Valid(View()) && View() == old(View()).(text := M.Rebuilt(old(View()).text, chars))
    {
      var newLines: seq<string>, current := [], "";
      for i := 0 to |chars|
        invariant View() == old(View())
        invariant newLines + M.LinesOf(chars[i..], current) == M.LinesOf(chars, "")
      {
        LinesStep(newLines, chars, i, current, M.LinesOf(chars, ""));
        if chars[i] == "\n" {
          newLines := newLines + [current];
          current := "";
        } else {
          current := current + chars[i];
        }
      }
      newLines := newLines + [current];
      var types: seq<M.BlockType> := [];
      while |types| < |newLines|
        invariant View() == old(View())
        invariant |types| <= |newLines| && forall k :: 0 <= k < |types| ==> types[k] == M.Paragraph
      {
        types := types + [M.Paragraph];
      }
      var i := 0;
      while i < |types| && i < |blockTypes|
        invariant View() == old(View())
        invariant 0 <= i <= |types| == |newLines| && i <= |blockTypes|
        invariant forall k :: 0 <= k < |types| ==> types[k] == if k < i then blockTypes[k] else M.Paragraph
      {
        types := types[i := blockTypes[i]];
        i := i + 1;
      }
      assert types == M.Rebuilt(old(View()).text, chars).blocks;
      lines, blockTypes := newLines, types;
    }

    /** `chars` is the content of the replicated list after the operations. */
    method Merge(ops: seq<M.Op>, chars: seq<string>)
      requires M.Valid(View())
      modifies this
      ensures M.Valid(View()) && View() == M.Merge(old(View()), ops, chars)
    {
      ghost var whole := M.ApplyAll(View(), ops);
      for i := 0 to |ops|
        invariant M.Valid(View()) && whole == M.ApplyAll(View(), ops[i..])
      {
        var _ := ApplyOp(ops[i]);
      }
      RebuildFromRGA(chars);
    }

    method Undo() returns (applied: bool)
      requires M.Valid(View())
      modifies this
      ensures M.Valid(View()) && View() == M.Undo(old(View()))
      ensures applied ==> historyIdx == old(historyIdx) - 1
      ensures !applied ==> lines == old(lines) && blockTypes == old(blockTypes)
    {
      M.UndoRedoValid(View());
      if historyIdx <= 0 {
        return false;
      }
      historyIdx := historyIdx - 1;
      var op := history[historyIdx];
      applied := false;
      match op {
        case Insert(p, _) =>
          if p < |lines| {
            lines := lines[..p] + lines[p + 1..];
            blockTypes := blockTypes[..p] + blockTypes[p + 1..];
            applied := true;
          }
        case Delete(p) =>
          if p <= |lines| {
            lines := InsertSlice(lines, p, "");
            blockTypes := InsertSlice(blockTypes, p, M.Paragraph);
            applied := true;
          }
        case Format(p, _) =>
          if p < |blockTypes| {
            blockTypes := blockTypes[p := M.Paragraph];
            applied := true;
          }
        case _ =>
      }
      version := version + 1;
    }

    method Redo() returns (applied: bool)
      requires M.Valid(View())
      modifies this
      ensures M.Valid(View()) && View() == M.Redo(old(View()))
      ensures applied ==> historyIdx == old(historyIdx) + 1
      ensures !applied ==> lines == old(lines) && blockTypes == old(blockTypes)
    {
      M.UndoRedoValid(View());
      if historyIdx >= |history| {
        return false;
      }
      var op := history[historyIdx];
      historyIdx := historyIdx + 1;
      applied := false;
      match op {
        case Insert(p, v) =>
          if p <= |lines| {
            lines := InsertSlice(lines, p, v);
            blockTypes := InsertSlice(blockTypes, p, M.Paragraph);
            applied := true;
          }
        case Delete(p) =>
          if p < |lines| {
            lines := lines[..p] + lines[p + 1..];
            blockTypes := blockTypes[..p] + blockTypes[p + 1..];
            applied := true;
          }
        case Format(p, b) =>
          if p < |blockTypes| {
            blockTypes := blockTypes[p := b];
            applied := true;
          }
        case _ =>
      }
      version := version + 1;
    }
  }

  // Shifts the tail by one by doubling the element at pos, then overwrites it.
  method InsertSlice<T>(s: seq<T>, pos: int, val: T) returns (r: seq<T>)
    requires 0 <= pos
    ensures r == M.InsertAt(s, pos, val)
  {
    if pos >= |s| {
      return s + [val];
    }
    r := s[..pos + 1] + s[pos..];
    r := r[pos := val];
  }

  lemma LinesStep(before: seq<string>, chars: seq<string>, i: nat, current: string, whole: seq<string>)
    requires i < |chars| && before + M.LinesOf(chars[i..], current) == whole
    ensures if chars[i] == "\n" then before + [current] + M.LinesOf(chars[i + 1..], "") == whole
            else before + M.LinesOf(chars[i + 1..], current + chars[i]) == whole
  {
    assert chars[i..][1..] == chars[i + 1..];
  }
}
