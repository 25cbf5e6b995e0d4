/** cycle_detection: a three-colour depth-first search that judges each cycle from its own stack. */
module Cycle {
  import opened Domain
  import opened Ordering
  import opened DepthFirst

  const RULE := "cycle_detection"

  datatype CycleMessage =
    | UnknownNode
    | InsideUnsetLoop(loop: string)
    | InsideLargeLoop(loop: string)
    | ExitBranch
    | GraphDefinitionError
    | LoopUnparseable
    | LoopUnset
    | LoopLarge(maxIterations: int)

  type CycleFinding = Finding<CycleMessage>

  function Report(severity: Severity, node: string, message: CycleMessage, confidence: real): Option<CycleFinding> {
    Some(NewFinding(RULE, severity, node, message, confidence))
  }

  // ----- Judging one back edge

  /** The last position on the path that holds a Loop or Control node. */
  function ParentControl(nodes: map<string, Node>, path: seq<string>): (r: Option<Node>)
    ensures r.None? ==> forall v :: v in path && v in nodes ==> !IsLoopNode(nodes[v].Type)
    ensures r.Some? ==>
              exists i :: 0 <= i < |path| && path[i] in nodes && nodes[path[i]] == r.value && IsLoopNode(r.value.Type)
                          && forall j :: i < j < |path| && path[j] in nodes ==> !IsLoopNode(nodes[path[j]].Type)
  {
    if path == [] then None
    else
      var last := |path| - 1;
      if path[last] in nodes && IsLoopNode(nodes[path[last]].Type) then Some(nodes[path[last]])
      else ParentControl(nodes, path[..last])
  }

  method FindParentControl(g: WorkflowGraph, path: seq<string>) returns (r: Option<Node>)
    ensures r == ParentControl(g.Nodes, path)
  {
    var i := |path| - 1;
    while i >= 0
      invariant -1 <= i < |path|
      invariant ParentControl(g.Nodes, path) == ParentControl(g.Nodes, path[..i + 1])
    {
      assert path[..i + 1][..i] == path[..i];
      if path[i] in g.Nodes && IsLoopNode(g.Nodes[path[i]].Type) {
        return Some(g.Nodes[path[i]]);
      }
      i := i - 1;
    }
    assert path[..|path|] == path;
    return None;
  }

  /** The stack from the first occurrence of the cycle's entry node; just that node when it is not on the stack. */
  ghost function CycleSet(entry: string, path: seq<string>): set<string> {
    if path == [] then {entry}
    else if path[0] == entry then set v | v in path
    else CycleSet(entry, path[1..])
  }

  ghost predicate Leaves(g: WorkflowGraph, s: set<string>) {
    || (exists e :: e in g.Edges && e.From in s && e.To !in s)
    || (exists v :: v in s && v in g.Nodes && g.Nodes[v].HasExitBranch)
  }

  method CycleHasExit(g: WorkflowGraph, entry: string, path: seq<string>) returns (exit: bool)
    ensures exit == Leaves(g, CycleSet(entry, path))
  {
    var start := 0;
    while start < |path| && path[start] != entry
      invariant 0 <= start <= |path|
      invariant CycleSet(entry, path) == CycleSet(entry, path[start..])
    {
      start := start + 1;
    }
    var cycleSet := {entry};
    for i := start to |path|
      invariant cycleSet == {entry} + set v | v in path[start..i]
    {
      cycleSet := cycleSet + {path[i]};
    }
    assert path[start..|path|] == path[start..];
    assert cycleSet == CycleSet(entry, path);
    for k := 0 to |g.Edges|
      invariant forall j :: 0 <= j < k ==> !(g.Edges[j].From in cycleSet && g.Edges[j].To !in cycleSet)
    {
      if g.Edges[k].From in cycleSet && g.Edges[k].To !in cycleSet {
        return true;
      }
    }
    var rest := cycleSet;
    while rest != {}
      invariant rest <= cycleSet
      invariant forall v :: v in cycleSet - rest && v in g.Nodes ==> !g.Nodes[v].HasExitBranch
      decreases rest
    {
      var v :| v in rest;
      rest := rest - {v};
      if v in g.Nodes && g.Nodes[v].HasExitBranch {
        return true;
      }
    }
    return false;
  }

  /** Verdict on a back edge into `entry` found with stack `path`; None for a safely bounded loop. */
  ghost function Verdict(g: WorkflowGraph, entry: string, path: seq<string>): (r: Option<CycleFinding>)
    ensures r.Some? ==> r.value.NodeID == entry && r.value.RuleName == RULE
  {
    if entry !in g.Nodes then
      Report(Critical, entry, UnknownNode, 1.0)
    else if !IsLoopNode(g.Nodes[entry].Type) then
      match ParentControl(g.Nodes, path)
      case Some(parent) => VerdictInsideLoop(entry, parent)
      case None =>
        if Leaves(g, CycleSet(entry, path)) then Report(Warning, entry, ExitBranch, 0.9)
        else Report(Critical, entry, GraphDefinitionError, 1.0)
    else
      VerdictAtLoop(entry, g.Nodes[entry])
  }

  function VerdictInsideLoop(entry: string, parent: Node): Option<CycleFinding> {
    var bound := GetMaxIterations(parent);
    if bound.None? && !ConfigPresent(parent, "max_iterations") then
      Report(Critical, entry, InsideUnsetLoop(parent.ID), 1.0)
    else if bound.None? || bound.value >= 100 then
      Report(Info, entry, InsideLargeLoop(parent.ID), 1.0)
    else None
  }

  function VerdictAtLoop(entry: string, node: Node): Option<CycleFinding> {
    match GetMaxIterations(node)
    case None =>
      if ConfigPresent(node, "max_iterations") then Report(Critical, entry, LoopUnparseable, 1.0)
      else Report(Critical, entry, LoopUnset, 1.0)
    case Some(n) =>
      if n >= 100 then Report(Warning, entry, LoopLarge(n), 1.0) else None
  }

  method EvaluateCycle(g: WorkflowGraph, entry: string, path: seq<string>) returns (r: Option<CycleFinding>)
    ensures r == Verdict(g, entry, path)
  {
    if entry !in g.Nodes {
      return Report(Critical, entry, UnknownNode, 1.0);
    }
    var node := g.Nodes[entry];
    if !IsLoopNode(node.Type) {
      var parent := FindParentControl(g, path);
      if parent.Some? {
        return VerdictInsideLoop(entry, parent.value);
      }
      var exit := CycleHasExit(g, entry, path);
      if exit {
        return Report(Warning, entry, ExitBranch, 0.9);
      }
      return Report(Critical, entry, GraphDefinitionError, 1.0);
    }
    return VerdictAtLoop(entry, node);
  }

  // ----- The search

  predicate EdgeLe(a: Edge, b: Edge) {
    if a.To != b.To then StrLe(a.To, b.To) else StrLe(a.Condition, b.Condition)
  }

  lemma EdgeLeIsTotalPreorder()
    ensures TotalPreorder(EdgeLe)
  {
    StrLeIsTotalPreorder();
    forall a, b, c | EdgeLe(a, b) && EdgeLe(b, c)
      ensures EdgeLe(a, c)
    {
      if a.To == c.To && b.To != a.To {
        StrLeAntisymmetric(a.To, b.To);
      }
    }
  }

  function SortedOut(g: WorkflowGraph, id: string): seq<Edge> {
    Sorted(EdgeLe, OutgoingEdges(g.Edges, id))
  }

  lemma SortedOutAre(g: WorkflowGraph, id: string)
    ensures forall e :: e in SortedOut(g, id) <==> e in g.Edges && e.From == id
  {
    var out := OutgoingEdges(g.Edges, id);
    OutgoingEdgesAre(g.Edges, id);
    SortedMultiset(EdgeLe, out);
    forall e ensures e in SortedOut(g, id) <==> e in out {
      SameElements(SortedOut(g, id), out, e);
    }
  }

  lemma SortedOutIsUnique(g: WorkflowGraph, id: string, es: seq<Edge>)
    requires SortedBy(EdgeLe, es) && multiset(es) == multiset(OutgoingEdges(g.Edges, id))
    ensures es == SortedOut(g, id)
  {
    EdgeLeIsTotalPreorder();
    var out := OutgoingEdges(g.Edges, id);
    OutgoingEdgesAre(g.Edges, id);
    SortedMultiset(EdgeLe, out);
    SortedIsSorted(EdgeLe, out);
    forall x, y | x in es && y in es && EdgeLe(x, y) && EdgeLe(y, x)
      ensures x == y
    {
      SameElements(es, out, x);
      SameElements(es, out, y);
      if x.To != y.To {
        StrLeAntisymmetric(x.To, y.To);
      }
      StrLeAntisymmetric(x.Condition, y.Condition);
    }
    SortedUnique(EdgeLe, es, SortedOut(g, id));
  }

  datatype Run = Run(state: VisitStates, seen: set<string>, findings: seq<CycleFinding>)

  ghost function CloseCycle(g: WorkflowGraph, target: string, path: seq<string>, s: Run): Run {
    if target in s.seen then s
    else
      match Verdict(g, target, path)
      case None => s
      case Some(f) => s.(seen := s.seen + {target}, findings := s.findings + [f])
  }

  /** The run after exploring `id` with ancestors `path`. */
  ghost function Visit(g: WorkflowGraph, id: string, path: seq<string>, s: Run): (r: Run)
    requires id in g.Nodes && id !in s.state
    ensures s.state.Keys + {id} <= r.state.Keys
    decreases g.Nodes.Keys - s.state.Keys, 0
  {
    var entered := s.(state := s.state[id := InProgress]);
    assert id in g.Nodes.Keys - s.state.Keys && id !in g.Nodes.Keys - entered.state.Keys;
    var r := VisitEdges(g, SortedOut(g, id), path + [id], entered);
    r.(state := r.state[id := Completed])
  }

  ghost function VisitEdges(g: WorkflowGraph, es: seq<Edge>, path: seq<string>, s: Run): (r: Run)
    ensures s.state.Keys <= r.state.Keys
    decreases g.Nodes.Keys - s.state.Keys, |es|
  {
    if es == [] then s else VisitEdges(g, es[1..], path, VisitEdge(g, es, path, s))
  }

  ghost function VisitEdge(g: WorkflowGraph, es: seq<Edge>, path: seq<string>, s: Run): (r: Run)
    requires es != []
    ensures s.state.Keys <= r.state.Keys
    decreases g.Nodes.Keys - s.state.Keys, |es|, 0
  {
    var target := es[0].To;
    if target in s.state then
      if s.state[target] == InProgress then CloseCycle(g, target, path, s) else s
    else if target in g.Nodes then Visit(g, target, path, s)
    else s
  }

  /** Start a search at each listed node that no earlier search has reached. */
  ghost function VisitRoots(g: WorkflowGraph, ids: seq<string>, s: Run): Run
    requires forall v :: v in ids ==> v in g.Nodes
  {
    if ids == [] then s
    else VisitRoots(g, ids[1..], if ids[0] in s.state then s else Visit(g, ids[0], [], s))
  }

  ghost predicate ListsNodes(g: WorkflowGraph, ids: seq<string>) {
    SortedBy(StrLe, ids) && multiset(ids) == multiset(g.Nodes.Keys)
  }

  const EMPTY_RUN := Run(map[], {}, [])

  ghost function FromEntry(g: WorkflowGraph): Run {
    if g.EntryNodeID in g.Nodes then Visit(g, g.EntryNodeID, [], EMPTY_RUN) else EMPTY_RUN
  }

  /** The entry node first, then every node in string order. */
  ghost function Search(g: WorkflowGraph, sortedIDs: seq<string>): Run
    requires ListsNodes(g, sortedIDs)
  {
    ListsNodesAre(g, sortedIDs);
    VisitRoots(g, sortedIDs, FromEntry(g))
  }

  lemma ListsNodesAre(g: WorkflowGraph, ids: seq<string>)
    requires multiset(ids) == multiset(g.Nodes.Keys)
    ensures forall v :: v in ids <==> v in g.Nodes
  {
    forall v ensures v in ids <==> v in g.Nodes {
      assert v in ids <==> v in multiset(ids);
    }
  }

  /** The detector's maps and findings, updated in place by the recursive closure. */
  class Detector {
    const g: WorkflowGraph
    var state: VisitStates
    var seenCycle: set<string>
    var findings: seq<CycleFinding>

    constructor (g: WorkflowGraph)
      ensures this.g == g && Value() == EMPTY_RUN
    {
      this.g := g;
      state, seenCycle, findings := map[], {}, [];
    }

    ghost function Value(): Run
      reads this
    {
      Run(state, seenCycle, findings)
    }

    method Dfs(id: string, path: seq<string>)
      requires id in g.Nodes && id !in state
      modifies this
      ensures Value() == Visit(g, id, path, old(Value()))
      decreases g.Nodes.Keys - state.Keys
    {
      state := state[id := InProgress];
      var currentPath := path + [id];
      EdgeLeIsTotalPreorder();
      var outgoing := SortSlice(EdgeLe, OutgoingEdges(g.Edges, id));
      SortedOutIsUnique(g, id, outgoing);
      ghost var entered := Value();
      for i := 0 to |outgoing|
        invariant VisitEdges(g, outgoing, currentPath, entered) == VisitEdges(g, outgoing[i..], currentPath, Value())
        invariant old(state.Keys) + {id} <= state.Keys
      {
        var target := outgoing[i].To;
        assert outgoing[i..][1..] == outgoing[i + 1..];
        if target in state {
          if state[target] == InProgress && target !in seenCycle {
            var f := EvaluateCycle(g, target, currentPath);
            if f.Some? {
              seenCycle := seenCycle + {target};
              findings := findings + [f.value];
            }
          }
        } else if target in g.Nodes {
          assert id in g.Nodes.Keys - old(state.Keys) && id !in g.Nodes.Keys - state.Keys;
          Dfs(target, currentPath);
        }
      }
      state := state[id := Completed];
    }

    method SearchEach(ids: seq<string>)
      requires forall v :: v in ids ==> v in g.Nodes
      modifies this
      ensures Value() == VisitRoots(g, ids, old(Value()))
    {
      for i := 0 to |ids|
        invariant VisitRoots(g, ids, old(Value())) == VisitRoots(g, ids[i..], Value())
      {
        assert ids[i..][1..] == ids[i + 1..];
        if ids[i] !in state {
          Dfs(ids[i], []);
        }
      }
    }
  }
}
