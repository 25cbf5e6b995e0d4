/**
 * What the three-colour depth-first searches have in common: the marks,
 * the path of nodes in progress, and why no cycle escapes.
 */
module DepthFirst {
  import opened Domain
  import opened Paths

  /** An absent key is an unvisited node. */
  datatype VisitState = InProgress | Completed

  type VisitStates = map<string, VisitState>

  predicate Done(state: VisitStates, v: string) {
    v in state && state[v] == Completed
  }

  /** `path` is a walk without repetition and holds exactly the nodes in progress. */
  ghost predicate Stack(g: WorkflowGraph, path: seq<string>, state: VisitStates) {
    && (path != [] ==> IsWalk(Links(g), path))
    && Distinct(path)
    && (forall v :: v in path <==> v in state && state[v] == InProgress)
    && state.Keys <= g.Nodes.Keys
  }

  lemma EnterKeepsStack(g: WorkflowGraph, id: string, path: seq<string>, state: VisitStates)
    requires Stack(g, path, state) && id in g.Nodes && id !in state
    requires path != [] ==> (path[|path| - 1], id) in Links(g)
    ensures Stack(g, path + [id], state[id := InProgress])
  {}

  lemma LeaveKeepsStack(g: WorkflowGraph, id: string, path: seq<string>, state: VisitStates)
    requires Stack(g, path + [id], state)
    ensures Stack(g, path, state[id := Completed])
  {
    var full := path + [id];
    assert full[|path|] == id && id in full;
    assert forall v :: v in full <==> v in path || v == id;
    if path != [] {
      WalkSegment(Links(g), full, 0, |path| - 1);
      assert full[0..|path| - 1 + 1] == path;
    }
    forall v | v in path ensures v != id {
      var k :| 0 <= k < |path| && path[k] == v;
      assert full[k] == v;
    }
    forall i, j | 0 <= i < j < |path| ensures path[i] != path[j] {
      assert full[i] != full[j];
    }
  }

  // ----- Accounted edges

  /** The edge from u to w is explored; if w is still open, the edge is accounted for. */
  ghost predicate Handled(g: WorkflowGraph, state: VisitStates, accounted: set<(string, string)>, u: string,
                          w: string) {
    w in g.Nodes ==> w in state && (state[w] == InProgress ==> (u, w) in accounted)
  }

  /** Some accounted edge joins nodes of the cycle. */
  ghost predicate Hit(accounted: set<(string, string)>, c: seq<string>) {
    exists p :: p in accounted && p.0 in c && p.1 in c
  }

  /** Completed nodes have handled edges, and every cycle among them is hit. */
  ghost predicate Covers(g: WorkflowGraph, state: VisitStates, accounted: set<(string, string)>) {
    && (forall u, w :: (u, w) in Links(g) && Done(state, u) ==> Handled(g, state, accounted, u, w))
    && (forall c :: IsCycle(Links(g), c) && (forall v :: v in c ==> Done(state, v)) ==> Hit(accounted, c))
  }

  /** More accounted edges, or a node newly in progress, cannot undo coverage. */
  lemma CoversGrows(g: WorkflowGraph, state: VisitStates, state': VisitStates, accounted: set<(string, string)>,
                    accounted': set<(string, string)>)
    requires Covers(g, state, accounted) && accounted <= accounted'
    requires state == state' || exists id :: id !in state && state' == state[id := InProgress]
    ensures Covers(g, state', accounted')
  {
    forall u, w | (u, w) in Links(g) && Done(state', u) ensures Handled(g, state', accounted', u, w) {
      assert Done(state, u) && Handled(g, state, accounted, u, w);
    }
    forall c | IsCycle(Links(g), c) && (forall v :: v in c ==> Done(state', v)) ensures Hit(accounted', c) {
      assert forall v :: v in c ==> Done(state, v);
      assert Hit(accounted, c);
    }
  }

  /** The last node of a cycle to complete was open when the cycle's edge into it was explored. */
  lemma LeaveKeepsCovers(g: WorkflowGraph, id: string, state: VisitStates, accounted: set<(string, string)>)
    requires Covers(g, state, accounted) && id in state && state[id] == InProgress
    requires forall w :: (id, w) in Links(g) ==> Handled(g, state, accounted, id, w)
    ensures Covers(g, state[id := Completed], accounted)
  {
    var state' := state[id := Completed];
    forall u, w | (u, w) in Links(g) && Done(state', u) ensures Handled(g, state', accounted, u, w) {
      assert Handled(g, state, accounted, u, w);
    }
    forall c | IsCycle(Links(g), c) && (forall v :: v in c ==> Done(state', v)) ensures Hit(accounted, c) {
      if id in c {
        var p := CyclePredecessor(Links(g), c, id);
        assert Handled(g, state, accounted, p, id);
        assert (p, id) in accounted;
      } else {
        assert forall v :: v in c ==> Done(state, v);
      }
    }
  }

  /** What a search keeps between visits. */
  ghost predicate Sweeps(g: WorkflowGraph, path: seq<string>, state: VisitStates, accounted: set<(string, string)>) {
    Stack(g, path, state) && Covers(g, state, accounted)
  }

  lemma EnterKeeps(g: WorkflowGraph, id: string, path: seq<string>, state: VisitStates,
                   accounted: set<(string, string)>)
    requires Sweeps(g, path, state, accounted) && id in g.Nodes && id !in state
    requires path != [] ==> (path[|path| - 1], id) in Links(g)
    ensures Sweeps(g, path + [id], state[id := InProgress], accounted)
  {
    EnterKeepsStack(g, id, path, state);
    CoversGrows(g, state, state[id := InProgress], accounted, accounted);
  }

  lemma LeaveKeeps(g: WorkflowGraph, id: string, path: seq<string>, state: VisitStates,
                   accounted: set<(string, string)>)
    requires Sweeps(g, path + [id], state, accounted)
    requires forall w :: (id, w) in Links(g) ==> Handled(g, state, accounted, id, w)
    ensures Sweeps(g, path, state[id := Completed], accounted)
  {
    assert (path + [id])[|path|] == id;
    LeaveKeepsStack(g, id, path, state);
    LeaveKeepsCovers(g, id, state, accounted);
  }

  /** An edge stays handled while the search goes on from the same path. */
  lemma HandledGrows(g: WorkflowGraph, path: seq<string>, state: VisitStates, state': VisitStates,
                     accounted: set<(string, string)>, accounted': set<(string, string)>, u: string, w: string)
    requires Handled(g, state, accounted, u, w) && accounted <= accounted' && state.Keys <= state'.Keys
    requires Stack(g, path, state) && Stack(g, path, state')
    ensures Handled(g, state', accounted', u, w)
  {
    if w in g.Nodes && state'[w] == InProgress {
      assert w in path;
    }
  }

  /** When every node is done, so is every cycle. */
  lemma CyclesAreDone(g: WorkflowGraph, state: VisitStates, c: seq<string>)
    requires IsCycle(Links(g), c) && forall v :: v in g.Nodes ==> Done(state, v)
    ensures forall v :: v in c ==> Done(state, v)
  {
    forall v | v in c ensures Done(state, v) {
      var p := CyclePredecessor(Links(g), c, v);
    }
  }
}
