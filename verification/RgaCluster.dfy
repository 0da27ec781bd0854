/** Any number of linked lists as one system: every step of a run, made by the objects themselves. */
module RgaCluster {
  import opened Bytes
  import opened RgaModel
  import opened RgaList
  import opened RgaSystem

  type Cluster = map<bytes, Rga>

  ghost predicate Holds(r: Rga, name: bytes, y: Replica)
    reads r, r.nodes
  {
    r.name == name && r.Valid() && r.State() == y
  }

  // Every node of every list is one of the cells.
  ghost predicate Within(reps: Cluster, cells: set<Node>)
    reads reps.Values
  {
    forall n, i :: n in reps && 0 <= i < |reps[n].nodes| ==> reps[n].nodes[i] in cells
  }

  ghost predicate AllApart(reps: Cluster)
    reads reps.Values
  {
    forall n, m :: n in reps && m in reps && n != m ==> reps[n] != reps[m] && reps[n].Apart(reps[m])
  }

  /** The objects hold the system's state, in these cells, and no two of them share a node. */
  ghost predicate Mirrors(reps: Cluster, y: System, cells: set<Node>)
    reads reps.Values, cells
  {
    && reps.Keys == y.Keys && Within(reps, cells) && AllApart(reps)
    && forall n :: n in reps ==> Holds(reps[n], n, y[n])
  }

  ghost predicate AllProper(y: System) {
    forall n :: n in y ==> Proper(y[n].doc)
  }

  // Nothing is held that was not held before or made since.
  twostate predicate Grown(r: Rga)
    reads r
  {
    forall i :: 0 <= i < |r.nodes| ==> r.nodes[i] in old(r.nodes) || fresh(r.nodes[i])
  }

  // An insert or a delete at the replica that makes it.
  method Edit(r: Rga, step: Step, ghost y: System)
    requires step.name in y && Holds(r, step.name, y[step.name]) && !step.MergeFrom?
    modifies r, r.nodes
    ensures Grown(r) && step.name in Next(y, step) && Holds(r, step.name, Next(y, step)[step.name])
  {
    match step
    case Insert(name, after, value) => r.Insert(after, value);
    case Delete(name, id) => r.Delete(id);
  }

  // The other side of a merge, if there is one.
  ghost predicate Facing(r: Rga, other: Rga?, step: Step, y: System)
    reads r, other, if other != null then other.nodes else []
  {
    step.MergeFrom? && if step.other in y && step.other != step.name
    then
      && other != null && r != other && r.Apart(other) && Holds(other, step.other, y[step.other])
      && Distinct(r.doc) && Proper(other.doc)
    else other == null || other == r
  }

  // A merge at the replica that receives.
  method Fold(r: Rga, other: Rga?, step: Step, ghost y: System)
    requires step.name in y && Holds(r, step.name, y[step.name]) && Facing(r, other, step, y)
    modifies r, r.nodes
    ensures Grown(r) && step.name in Next(y, step) && Holds(r, step.name, Next(y, step)[step.name])
  {
    r.Merge(other);
  }

  // The step at the replica that makes it.
  method Act(r: Rga, other: Rga?, step: Step, ghost y: System, ghost was: set<Node>)
    requires step.name in y && Holds(r, step.name, y[step.name])
    requires step.MergeFrom? ==> Facing(r, other, step, y)
    requires forall i :: 0 <= i < |r.nodes| ==> r.nodes[i] in was
    modifies r, was
    ensures step.name in Next(y, step) && Holds(r, step.name, Next(y, step)[step.name])
    ensures forall c :: c in r.nodes ==> c in was || fresh(c)
  {
    if step.MergeFrom? {
      Fold(r, other, step, y);
    } else {
      Edit(r, step, y);
    }
  }

  // While the rest stands by.
  method ActAlone(r: Rga, other: Rga?, step: Step, ghost y: System, ghost was: set<Node>, ghost rest: Cluster, ghost yr: System, ghost left: set<Node>)
    requires step.name in y && Holds(r, step.name, y[step.name])
    requires step.MergeFrom? ==> Facing(r, other, step, y)
    requires (forall i :: 0 <= i < |r.nodes| ==> r.nodes[i] in was) && (forall c :: c in left ==> c !in was)
    requires Mirrors(rest, yr, left) && (forall o :: o in rest.Values ==> o != r)
    modifies r, was
    ensures step.name in Next(y, step) && Holds(r, step.name, Next(y, step)[step.name])
    ensures Mirrors(rest, yr, left) && forall c :: c in r.nodes ==> c in was || fresh(c)
  {
    Act(r, other, step, y, was);
    assert unchanged(rest.Values) && unchanged(left);
  }

  // A cluster with one more list, which shares no node with the rest.
  lemma Joined(reps: Cluster, y: System, cells: set<Node>, n: bytes, r: Rga, state: Replica, cells': set<Node>)
    requires Mirrors(reps, y, cells) && n !in y && Holds(r, n, state) && r !in reps.Values && cells <= cells'
    requires forall i :: 0 <= i < |r.nodes| ==> r.nodes[i] !in cells && r.nodes[i] in cells'
    ensures Mirrors(reps[n := r], y[n := state], cells')
  {
    var all, z := reps[n := r], y[n := state];
    forall m | m in all
      ensures Holds(all[m], m, z[m])
    {
      assert m != n ==> Holds(reps[m], m, y[m]);
    }
    forall m, l | m in all && l in all && m != l
      ensures all[m] != all[l] && all[m].Apart(all[l])
    {
      if m != n && l != n {
        assert reps[m] != reps[l] && reps[m].Apart(reps[l]);
      }
    }
  }

  // The cluster without one of its lists needs none of that list's nodes.
  lemma Parted(reps: Cluster, y: System, cells: set<Node>, n: bytes)
    requires Mirrors(reps, y, cells) && n in reps
    ensures Mirrors(reps - {n}, y - {n}, cells - set c | c in reps[n].nodes)
    ensures reps[n] !in (reps - {n}).Values
  {
    var rest, was := reps - {n}, set c | c in reps[n].nodes;
    forall m, i | m in rest && 0 <= i < |rest[m].nodes|
      ensures rest[m].nodes[i] in cells - was
    {
      assert reps[n].Apart(reps[m]);
    }
  }

  lemma NextElsewhere(y: System, step: Step)
    requires step.name in y
    ensures step.name in Next(y, step) && Next(y, step) == (y - {step.name})[step.name := Next(y, step)[step.name]]
  {
  }

  /** One step of the system, made by one object: what Merge asks of the two lists always holds, and the other
      lists stand by. */
  method Perform(reps: Cluster, step: Step, ghost y: System, ghost cells: set<Node>) returns (ghost cells': set<Node>)
    requires Mirrors(reps, y, cells) && AllProper(y)
    modifies reps.Values, cells
    ensures Mirrors(reps, Next(y, step), cells')
    ensures forall c :: c in cells' ==> c in cells || fresh(c)
  {
    cells' := cells;
    if step.name in reps {
      var r := reps[step.name];
      ghost var was := set c | c in r.nodes;
      Parted(reps, y, cells, step.name);
      assert Holds(r, step.name, y[step.name]);
      assert Proper(y[step.name].doc);
      var other: Rga? := if step.MergeFrom? && step.other in reps then reps[step.other] else null;
      ActAlone(r, other, step, y, was, reps - {step.name}, y - {step.name}, cells - was);
      cells' := cells + set c | c in r.nodes;
      Returned(reps, r, step, y, reps - {step.name}, y - {step.name}, cells - was, cells');
    }
  }

  lemma Returned(reps: Cluster, r: Rga, step: Step, y: System, rest: Cluster, yr: System, left: set<Node>, cells': set<Node>)
    requires step.name in reps && reps[step.name] == r && step.name in y
    requires rest == reps - {step.name} && yr == y - {step.name} && Mirrors(rest, yr, left) && r !in rest.Values
    requires step.name in Next(y, step) && Holds(r, step.name, Next(y, step)[step.name])
    requires left <= cells' && forall c :: c in r.nodes ==> c in cells' && c !in left
    ensures Mirrors(reps, Next(y, step), cells')
  {
    Joined(rest, yr, left, step.name, r, Next(y, step)[step.name], cells');
    NextElsewhere(y, step);
    assert rest[step.name := r] == reps;
  }

  lemma RunReady(names: set<bytes>, steps: seq<Step>)
    requires Nameable(names)
    ensures AllProper(RunSteps(Start(names), steps))
  {
    EveryRunWellFormed(names, steps);
    var y := RunSteps(Start(names), steps);
    forall n | n in y
      ensures Proper(y[n].doc)
    {
      MergeReady(y, n);
    }
  }

  // Making a list disturbs no other.
  method Create(reps: Cluster, ghost y: System, ghost cells: set<Node>, n: bytes) returns (r: Rga)
    requires Mirrors(reps, y, cells)
    ensures fresh(r) && fresh(r.nodes) && Holds(r, n, Empty) && Mirrors(reps, y, cells)
  {
    r := new Rga(n);
  }

  method Join(reps: Cluster, ghost y: System, ghost cells: set<Node>, n: bytes) returns (all: Cluster, ghost cells': set<Node>)
    requires Mirrors(reps, y, cells) && n !in y
    ensures Mirrors(all, y[n := Empty], cells')
    ensures forall r :: r in all.Values ==> r in reps.Values || fresh(r)
    ensures forall c :: c in cells' ==> c in cells || fresh(c)
  {
    var r := Create(reps, y, cells, n);
    cells' := cells + set c | c in r.nodes;
    Joined(reps, y, cells, n, r, Empty, cells');
    all := reps[n := r];
  }

  lemma StartMore(known: set<bytes>, n: bytes)
    ensures Start(known + {n}) == Start(known)[n := Empty]
  {
  }

  /** Fresh replicas, one for each name. */
  method Boot(names: set<bytes>) returns (reps: Cluster, ghost cells: set<Node>)
    ensures Mirrors(reps, Start(names), cells) && fresh(reps.Values) && fresh(cells)
  {
    reps, cells := map[], {};
    var rest := names;
    ghost var known: set<bytes> := {};
    while rest != {}
      invariant Mirrors(reps, Start(known), cells) && fresh(reps.Values) && fresh(cells)
      invariant known !! rest && known + rest == names
    {
      var n :| n in rest;
      reps, cells := Join(reps, Start(known), cells, n);
      StartMore(known, n);
      known := known + {n};
      rest := rest - {n};
    }
    assert known == names;
  }

  // The run's next step.
  method StepOn(reps: Cluster, names: set<bytes>, steps: seq<Step>, k: nat, ghost cells: set<Node>) returns (ghost cells': set<Node>)
    requires Nameable(names) && k < |steps| && Mirrors(reps, RunSteps(Start(names), steps[..k]), cells)
    modifies reps.Values, cells
    ensures Mirrors(reps, RunSteps(Start(names), steps[..k + 1]), cells')
    ensures forall c :: c in cells' ==> c in cells || fresh(c)
  {
    RunReady(names, steps[..k]);
    assert steps[..k + 1][..k] == steps[..k];
    cells' := Perform(reps, steps[k], RunSteps(Start(names), steps[..k]), cells);
  }

  /** Every run, made by the objects. */
  method Execute(names: set<bytes>, steps: seq<Step>) returns (reps: Cluster, ghost cells: set<Node>)
    requires Nameable(names)
    ensures Mirrors(reps, RunSteps(Start(names), steps), cells) && fresh(reps.Values) && fresh(cells)
  {
    reps, cells := Boot(names);
    var k := 0;
    while k < |steps|
      invariant k <= |steps| && Mirrors(reps, RunSteps(Start(names), steps[..k]), cells)
      invariant fresh(reps.Values) && fresh(cells)
    {
      cells := StepOn(reps, names, steps, k, cells);
      k := k + 1;
    }
    assert steps[..k] == steps;
  }

  lemma RunNames(names: set<bytes>, steps: seq<Step>)
    requires Nameable(names)
    ensures RunSteps(Start(names), steps).Keys == names
  {
    EveryRunWellFormed(names, steps);
  }

  method Render(reps: Cluster, ghost y: System, ghost cells: set<Node>, name: bytes) returns (text: bytes)
    requires Mirrors(reps, y, cells) && name in y
    ensures text == Text(y[name].doc)
  {
    assert Holds(reps[name], name, y[name]);
    text := reps[name].String();
  }

  /** Two lists of a run that merge one after the other: what they then render is what the run says, and the
      two renderings are equal whenever nobody merged before. */
  method ExchangeTexts(names: set<bytes>, steps: seq<Step>, a: bytes, b: bytes) returns (left: bytes, right: bytes)
    requires Nameable(names) && a in names && b in names && a != b
    ensures var y := RunSteps(Start(names), steps + [MergeFrom(a, b), MergeFrom(b, a)]);
            a in y && b in y && left == Text(y[a].doc) && right == Text(y[b].doc)
    ensures (forall i :: 0 <= i < |steps| ==> !steps[i].MergeFrom?) ==> left == right
  {
    var all := steps + [MergeFrom(a, b), MergeFrom(b, a)];
    ghost var y := RunSteps(Start(names), all);
    RunNames(names, all);
    var reps, cells := Execute(names, all);
    left := Render(reps, y, cells, a);
    right := Render(reps, y, cells, b);
    AgreeIfLocal(names, steps, a, b, y);
  }

  lemma AgreeIfLocal(names: set<bytes>, steps: seq<Step>, a: bytes, b: bytes, y: System)
    requires Nameable(names) && a in names && b in names && a != b
    requires y == RunSteps(Start(names), steps + [MergeFrom(a, b), MergeFrom(b, a)])
    ensures a in y && b in y
    ensures (forall i :: 0 <= i < |steps| ==> !steps[i].MergeFrom?) ==> Text(y[a].doc) == Text(y[b].doc)
  {
    if forall i :: 0 <= i < |steps| ==> !steps[i].MergeFrom? {
      IndependentEditorsAgree(names, steps, a, b);
    } else {
      RunNames(names, steps + [MergeFrom(a, b), MergeFrom(b, a)]);
    }
  }
}
