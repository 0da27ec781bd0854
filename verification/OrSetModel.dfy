/** The observed-remove set: every add carries a unique tag, a remove tombstones the tags it has seen. */
module OrSetModel {
  import opened Bytes

  datatype State = State(adds: map<bytes, set<bytes>>, removes: set<bytes>)

  const Empty: State := State(map[], {})

  function Tags(adds: map<bytes, set<bytes>>, elem: bytes): set<bytes> {
    if elem in adds then adds[elem] else {}
  }

  function Add(s: State, elem: bytes, tag: bytes): State {
    s.(adds := s.adds[elem := Tags(s.adds, elem) + {tag}])
  }

  function Remove(s: State, elem: bytes): State {
    s.(removes := s.removes + Tags(s.adds, elem))
  }

  function Join(a: map<bytes, set<bytes>>, b: map<bytes, set<bytes>>): map<bytes, set<bytes>> {
    map e | e in a.Keys + b.Keys :: Tags(a, e) + Tags(b, e)
  }

  lemma JoinEmpty(a: map<bytes, set<bytes>>)
    ensures Join(a, map[]) == a
  {
    var j := Join(a, map[]);
    assert j.Keys == a.Keys;
    assert forall e :: e in a ==> j[e] == a[e] + {} == a[e];
  }

  // Taking one more element from b.
  lemma JoinStep(a: map<bytes, set<bytes>>, b: map<bytes, set<bytes>>, todo: set<bytes>, e: bytes)
    requires e in todo && todo <= b.Keys
    ensures var j := Join(a, b - todo); Join(a, b - (todo - {e})) == j[e := Tags(j, e) + b[e]]
  {
    var j, j' := Join(a, b - todo), Join(a, b - (todo - {e}));
    var k := j[e := Tags(j, e) + b[e]];
    assert j'.Keys == k.Keys;
    forall f | f in k
      ensures j'[f] == k[f]
    {
      assert f != e ==> (f in b - todo <==> f in b - (todo - {e}));
    }
  }

  function Merge(s: State, t: State): State {
    State(Join(s.adds, t.adds), s.removes + t.removes)
  }

  ghost predicate Contains(s: State, elem: bytes) {
    exists tag :: tag in Tags(s.adds, elem) && tag !in s.removes
  }

  // ---------- any number of replicas, with their causal histories ----------

  /** What happened: an add with its tag, or a remove with everything that had happened before it. */
  datatype Event = Added(elem: bytes, tag: bytes) | Removed(elem: bytes, past: set<Event>)

  type Replica = nat
  datatype System = System(states: map<Replica, State>, histories: map<Replica, set<Event>>)

  datatype Step =
    | DoAdd(at: Replica, elem: bytes, tag: bytes)
    | DoRemove(at: Replica, elem: bytes)
    | DoMerge(at: Replica, other: Replica)

  function StateOf(y: System, r: Replica): State {
    if r in y.states then y.states[r] else Empty
  }

  function History(y: System, r: Replica): set<Event> {
    if r in y.histories then y.histories[r] else {}
  }

  function Set1(y: System, r: Replica, s: State, h: set<Event>): System {
    System(y.states[r := s], y.histories[r := h])
  }

  function Next(y: System, step: Step): System {
    var s, h := StateOf(y, step.at), History(y, step.at);
    match step
    case DoAdd(r, elem, tag) => Set1(y, r, Add(s, elem, tag), h + {Added(elem, tag)})
    case DoRemove(r, elem) => Set1(y, r, Remove(s, elem), h + {Removed(elem, h)})
    case DoMerge(r, other) => Set1(y, r, Merge(s, StateOf(y, other)), h + History(y, other))
  }

  function Run(steps: seq<Step>): System {
    if steps == [] then System(map[], map[]) else Next(Run(steps[..|steps| - 1]), steps[|steps| - 1])
  }

  /** Tags are minted once. */
  ghost predicate UniqueTags(steps: seq<Step>) {
    forall i, j :: 0 <= i < j < |steps| && steps[i].DoAdd? && steps[j].DoAdd? ==> steps[i].tag != steps[j].tag
  }

  /** The meaning, read off a history alone: some add of e that no remove of e in the history had seen. */
  ghost predicate Present(h: set<Event>, e: bytes) {
    exists tag :: Added(e, tag) in h && !Observed(h, e, tag)
  }

  ghost predicate Observed(h: set<Event>, e: bytes, tag: bytes) {
    exists past :: Removed(e, past) in h && Added(e, tag) in past
  }

  // ---------- the invariant that ties states to histories ----------

  ghost predicate Closed(h: set<Event>) {
    forall e, past :: Removed(e, past) in h ==> past <= h
  }

  ghost predicate Tied(s: State, h: set<Event>) {
    && (forall e, tag :: tag in Tags(s.adds, e) <==> Added(e, tag) in h)
    && (forall tag :: tag in s.removes <==> exists e :: Observed(h, e, tag))
    && Closed(h)
  }

  // Every add in a history is one of the steps of the run.
  ghost predicate FromRun(steps: seq<Step>, h: set<Event>) {
    forall e, tag :: Added(e, tag) in h ==> exists i :: 0 <= i < |steps| && steps[i].DoAdd? && steps[i].elem == e && steps[i].tag == tag
  }

  lemma TiedAdd(s: State, h: set<Event>, e: bytes, tag: bytes)
    requires Tied(s, h)
    ensures Tied(Add(s, e, tag), h + {Added(e, tag)})
  {
    var h' := h + {Added(e, tag)};
    assert forall f, t :: Observed(h', f, t) <==> Observed(h, f, t);
  }

  lemma TiedRemove(s: State, h: set<Event>, e: bytes)
    requires Tied(s, h)
    ensures Tied(Remove(s, e), h + {Removed(e, h)})
  {
    var h' := h + {Removed(e, h)};
    forall f, t
      ensures Observed(h', f, t) <==> Observed(h, f, t) || (f == e && Added(e, t) in h)
    {
      if f == e && Added(e, t) in h {
        assert Removed(e, h) in h';
      }
    }
    forall t
      ensures t in Remove(s, e).removes <==> exists f :: Observed(h', f, t)
    {
      if t in Tags(s.adds, e) {
        assert Observed(h', e, t);
      } else if t in s.removes {
        var f :| Observed(h, f, t);
        assert Observed(h', f, t);
      }
    }
  }

  lemma TiedMerge(s: State, h: set<Event>, t: State, k: set<Event>)
    requires Tied(s, h) && Tied(t, k)
    ensures Tied(Merge(s, t), h + k)
  {
    assert forall f, x :: Observed(h + k, f, x) <==> Observed(h, f, x) || Observed(k, f, x);
    forall f
      ensures Tags(Merge(s, t).adds, f) == Tags(s.adds, f) + Tags(t.adds, f)
    {
    }
  }

  lemma {:induction false} RunTied(steps: seq<Step>, r: Replica)
    ensures Tied(StateOf(Run(steps), r), History(Run(steps), r))
    ensures FromRun(steps, History(Run(steps), r))
  {
    if steps != [] {
      var before := steps[..|steps| - 1];
      var step := steps[|steps| - 1];
      RunTied(before, r);
      var y := Run(before);
      if step.at == r {
        match step
        case DoAdd(_, elem, tag) => TiedAdd(StateOf(y, r), History(y, r), elem, tag);
        case DoRemove(_, elem) => TiedRemove(StateOf(y, r), History(y, r), elem);
        case DoMerge(_, other) =>
          RunTied(before, other);
          TiedMerge(StateOf(y, r), History(y, r), StateOf(y, other), History(y, other));
      }
      FromRunExtends(before, step, steps, History(y, r));
      if step.DoMerge? {
        RunTied(before, step.other);
        FromRunExtends(before, step, steps, History(y, step.other));
      }
    }
  }

  lemma FromRunExtends(before: seq<Step>, step: Step, steps: seq<Step>, h: set<Event>)
    requires steps == before + [step] && FromRun(before, h)
    ensures FromRun(steps, h)
    ensures step.DoAdd? ==> FromRun(steps, h + {Added(step.elem, step.tag)})
  {
    forall e, tag | Added(e, tag) in h
      ensures exists i :: 0 <= i < |steps| && steps[i].DoAdd? && steps[i].elem == e && steps[i].tag == tag
    {
      var i :| 0 <= i < |before| && before[i].DoAdd? && before[i].elem == e && before[i].tag == tag;
      assert steps[i] == before[i];
    }
    assert steps[|before|] == step;
  }

  /** Over every run, a replica contains e exactly when its causal history holds an add of e that no
      remove in that history had observed. */
  lemma ContainsIffPresent(steps: seq<Step>, r: Replica, e: bytes)
    requires UniqueTags(steps)
    ensures Contains(StateOf(Run(steps), r), e) <==> Present(History(Run(steps), r), e)
  {
    RunTied(steps, r);
    var s, h := StateOf(Run(steps), r), History(Run(steps), r);
    forall tag | Added(e, tag) in h
      ensures tag in s.removes <==> Observed(h, e, tag)
    {
      if tag in s.removes {
        var f :| Observed(h, f, tag);
        var past :| Removed(f, past) in h && Added(f, tag) in past;
        assert Added(f, tag) in h;
        OneElementPerTag(steps, h, e, f, tag);
      }
    }
  }

  lemma OneElementPerTag(steps: seq<Step>, h: set<Event>, e: bytes, f: bytes, tag: bytes)
    requires UniqueTags(steps) && FromRun(steps, h) && Added(e, tag) in h && Added(f, tag) in h
    ensures e == f
  {
    var i :| 0 <= i < |steps| && steps[i].DoAdd? && steps[i].elem == e && steps[i].tag == tag;
    var j :| 0 <= j < |steps| && steps[j].DoAdd? && steps[j].elem == f && steps[j].tag == tag;
    assert i == j;
  }

  /** Replicas with the same history agree on every element, whatever order they learned it in. */
  lemma EqualHistoriesAgree(steps: seq<Step>, r: Replica, q: Replica, e: bytes)
    requires UniqueTags(steps) && History(Run(steps), r) == History(Run(steps), q)
    ensures Contains(StateOf(Run(steps), r), e) <==> Contains(StateOf(Run(steps), q), e)
  {
    ContainsIffPresent(steps, r, e);
    ContainsIffPresent(steps, q, e);
  }

  /** An add survives every remove that happened without knowledge of it. */
  lemma ConcurrentAddWins(steps: seq<Step>, r: Replica, e: bytes, tag: bytes)
    requires UniqueTags(steps) && Added(e, tag) in History(Run(steps), r)
    requires forall past :: Removed(e, past) in History(Run(steps), r) ==> Added(e, tag) !in past
    ensures Contains(StateOf(Run(steps), r), e)
  {
    ContainsIffPresent(steps, r, e);
    assert !Observed(History(Run(steps), r), e, tag);
  }
}
