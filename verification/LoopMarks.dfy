/** Which nodes the loop search marks: an exact account of it, its order included. */
module LoopMarks {
  import opened Domain
  import opened Ordering
  import opened Paths
  import opened DepthFirst
  import opened SearchOrder
  import opened LoopNodes

  // ----- The paths of the search

  /** Edges are tried in edge order. */
  ghost function ByEdge(g: WorkflowGraph): Branches {
    (u: string, x: string, y: string) => EdgeBefore(g.Edges, u, x, y)
  }

  /** u is listed before r. */
  ghost predicate ListedBefore(order: seq<string>, u: string, r: string) {
    exists i :: 0 <= i < |order| && order[i] == u && r !in order[..i + 1]
  }

  /** The entry node is the first root; the others follow in the order of the node map. */
  ghost function EntryThenOrder(g: WorkflowGraph, order: seq<string>): Roots {
    (u: string, r: string) => r != g.EntryNodeID && u in g.Nodes && (u == g.EntryNodeID || ListedBefore(order, u, r))
  }

  ghost predicate MarkPath(g: WorkflowGraph, order: seq<string>, w: seq<string>) {
    SearchPath(g, ByEdge(g), EntryThenOrder(g, order), w)
  }

  lemma {:induction false} ListedBeforeIsTotal(order: seq<string>, r: string, q: string)
    requires r in order && q in order && r != q
    ensures ListedBefore(order, r, q) || ListedBefore(order, q, r)
  {
    if order[0] == r {
      assert order[..1] == [r];
      assert q !in order[..0 + 1];
    } else if order[0] == q {
      assert order[..1] == [q];
      assert r !in order[..0 + 1];
    } else {
      var rest := order[1..];
      ListedBeforeIsTotal(rest, r, q);
      if i :| 0 <= i < |rest| && rest[i] == r && q !in rest[..i + 1] {
        assert order[..i + 2] == [order[0]] + rest[..i + 1] && order[i + 1] == r;
        assert q !in order[..i + 1 + 1];
      }
      if i :| 0 <= i < |rest| && rest[i] == q && r !in rest[..i + 1] {
        assert order[..i + 2] == [order[0]] + rest[..i + 1] && order[i + 1] == q;
        assert r !in order[..i + 1 + 1];
      }
    }
  }

  lemma OrdersAreTotal(g: WorkflowGraph, order: seq<string>)
    requires ListsAll(g, order)
    ensures TotalBranches(g, ByEdge(g)) && TotalRoots(g, EntryThenOrder(g, order))
  {
    forall u, x, y | (u, x) in Links(g) && (u, y) in Links(g) && x != y
      ensures EdgeBefore(g.Edges, u, x, y) || EdgeBefore(g.Edges, u, y, x)
    {
      EdgeBeforeIsTotal(g.Edges, u, x, y);
    }
    forall r, q | r in g.Nodes && q in g.Nodes && r != q
      ensures ListedBefore(order, r, q) || ListedBefore(order, q, r)
    {
      ListedBeforeIsTotal(order, r, q);
    }
  }

  // ----- What the search knows

  /** The path to some node ends with a link back onto it. */
  ghost predicate TurnsBack(g: WorkflowGraph, order: seq<string>, w: seq<string>) {
    MarkPath(g, order, w) && exists x :: x in w && (w[|w| - 1], x) in Links(g)
  }

  ghost predicate OnTurning(g: WorkflowGraph, order: seq<string>, v: string) {
    exists w :: TurnsBack(g, order, w) && v in w
  }

  ghost predicate HasPath(g: WorkflowGraph, order: seq<string>, u: string) {
    exists w :: MarkPath(g, order, w) && w[|w| - 1] == u
  }

  ghost predicate Known(g: WorkflowGraph, order: seq<string>, s: Run) {
    && (forall w :: TurnsBack(g, order, w) && Done(s.state, w[|w| - 1]) ==> Elements(w) <= s.inLoop)
    && (forall v :: v in s.inLoop ==> OnTurning(g, order, v))
    && (forall u :: u in s.state ==> HasPath(g, order, u))
  }

  ghost predicate TracedHere(g: WorkflowGraph, order: seq<string>, path: seq<string>, state: VisitStates) {
    Traced(g, ByEdge(g), EntryThenOrder(g, order), path, state)
  }

  /** The edges of the path's end that have been tried, and those that are left. */
  ghost predicate Trying(g: WorkflowGraph, path: seq<string>, s: Run, tried: seq<Edge>, es: seq<Edge>)
    requires path != []
  {
    && OutgoingEdges(g.Edges, path[|path| - 1]) == tried + es
    && forall e :: e in tried ==>
         && (e.To in g.Nodes ==> Shut(g, path, s.state, e.To))
         && (e.To in path ==> Elements(path) <= s.inLoop)
  }

  lemma KnownOnLeave(g: WorkflowGraph, order: seq<string>, path: seq<string>, s: Run)
    requires ListsAll(g, order) && Known(g, order, s) && MarkPath(g, order, path)
    requires TurnsBack(g, order, path) ==> Elements(path) <= s.inLoop
    ensures Known(g, order, s.(state := s.state[path[|path| - 1] := Completed]))
  {
    var id := path[|path| - 1];
    var t := s.(state := s.state[id := Completed]);
    OrdersAreTotal(g, order);
    forall w | TurnsBack(g, order, w) && Done(t.state, w[|w| - 1]) ensures Elements(w) <= t.inLoop {
      if w[|w| - 1] == id {
        SearchPathIsUnique(g, ByEdge(g), EntryThenOrder(g, order), w, path);
      } else {
        assert Done(s.state, w[|w| - 1]);
      }
    }
  }

  lemma ShutGrows(g: WorkflowGraph, path: seq<string>, s: Run, t: Run)
    requires Grows(path, s, t)
    ensures forall x :: Shut(g, path, s.state, x) ==> Shut(g, path, t.state, x)
  {
    forall x | Shut(g, path, s.state, x) ensures Shut(g, path, t.state, x) {
      forall y | Around(g, path, x, y) ensures Done(t.state, y) {
        assert Done(s.state, y);
      }
    }
  }

  /** Whatever comes before the first edge left has been tried. */
  lemma FirstIsNext(g: WorkflowGraph, path: seq<string>, s: Run, tried: seq<Edge>, es: seq<Edge>)
    requires path != [] && es != [] && Trying(g, path, s, tried, es)
    ensures forall x :: (path[|path| - 1], x) in Links(g) && EdgeBefore(g.Edges, path[|path| - 1], x, es[0].To) ==>
              Shut(g, path, s.state, x)
  {
    var u := path[|path| - 1];
    forall x | (u, x) in Links(g) && EdgeBefore(g.Edges, u, x, es[0].To) ensures Shut(g, path, s.state, x) {
      BeforeInOutgoing(g.Edges, u, tried, es, x);
    }
  }

  lemma TryingStep(g: WorkflowGraph, path: seq<string>, s: Run, tried: seq<Edge>, es: seq<Edge>, t: Run)
    requires path != [] && es != [] && Trying(g, path, s, tried, es) && Grows(path, s, t)
    requires es[0].To in g.Nodes ==> Shut(g, path, t.state, es[0].To)
    requires es[0].To in path ==> Elements(path) <= t.inLoop
    ensures Trying(g, path, t, tried + [es[0]], es[1..])
  {
    ShutGrows(g, path, s, t);
    assert tried + es == tried + [es[0]] + es[1..];
  }

  lemma KnownOnBackEdge(g: WorkflowGraph, order: seq<string>, path: seq<string>, target: string, s: Run)
    requires Known(g, order, s) && MarkPath(g, order, path) && target in path && (path[|path| - 1], target) in Links(g)
    ensures Known(g, order, s.(inLoop := s.inLoop + Elements(path)))
  {
    assert TurnsBack(g, order, path);
  }

  lemma KnownOnEntry(g: WorkflowGraph, order: seq<string>, id: string, path: seq<string>, s: Run)
    requires Known(g, order, s) && MarkPath(g, order, path + [id])
    ensures Known(g, order, s.(state := s.state[id := InProgress]))
  {
    assert (path + [id])[|path + [id]| - 1] == id;
    forall w | TurnsBack(g, order, w) && Done(s.state[id := InProgress], w[|w| - 1]) ensures Elements(w) <= s.inLoop {
      assert Done(s.state, w[|w| - 1]);
    }
  }

  lemma {:induction false} VisitKnows(g: WorkflowGraph, order: seq<string>, id: string, path: seq<string>, s: Run)
    requires ListsAll(g, order) && Good(g, path, s) && id in g.Nodes && id !in s.state && Known(g, order, s)
    requires path != [] ==> (path[|path| - 1], id) in Links(g)
    requires TracedHere(g, order, path + [id], s.state)
    ensures Known(g, order, Visit(g, id, path, s))
    decreases g.Nodes.Keys - s.state.Keys, 0
  {
    var entered, longer := s.(state := s.state[id := InProgress]), path + [id];
    assert longer[|longer| - 1] == id;
    TracedIsSearchPath(g, ByEdge(g), EntryThenOrder(g, order), longer, s.state);
    assert id in g.Nodes.Keys - s.state.Keys && id !in g.Nodes.Keys - entered.state.Keys;
    EnterKeeps(g, id, path, s.state, Accounted(g, s.inLoop));
    KnownOnEntry(g, order, id, path, s);
    TracedGrows(g, ByEdge(g), EntryThenOrder(g, order), longer, s.state, entered.state);
    var es := OutgoingEdges(g.Edges, id);
    assert es == [] + es;
    VisitEdgesKnow(g, order, [], es, longer, entered);
    KnownOnLeave(g, order, longer, VisitEdges(g, es, longer, entered));
  }

  lemma {:induction false} VisitEdgesKnow(g: WorkflowGraph, order: seq<string>, tried: seq<Edge>, es: seq<Edge>,
                                          path: seq<string>, s: Run)
    requires ListsAll(g, order) && Good(g, path, s) && path != [] && path[|path| - 1] in g.Nodes && Known(g, order, s)
    requires TracedHere(g, order, path, s.state) && MarkPath(g, order, path) && Trying(g, path, s, tried, es)
    ensures var r := VisitEdges(g, es, path, s);
            Known(g, order, r) && (TurnsBack(g, order, path) ==> Elements(path) <= r.inLoop)
    decreases g.Nodes.Keys - s.state.Keys, |es|
  {
    OutgoingEdgesAre(g.Edges, path[|path| - 1]);
    if es == [] {
      AllTried(g, order, path, s, tried);
    } else {
      assert es[0] in tried + es;
      var t := VisitEdge(g, es, path, s);
      VisitEdgeKnows(g, order, tried, es, path, s);
      TryingStep(g, path, s, tried, es, t);
      TracedGrows(g, ByEdge(g), EntryThenOrder(g, order), path, s.state, t.state);
      VisitEdgesKnow(g, order, tried + [es[0]], es[1..], path, t);
    }
  }

  lemma AllTried(g: WorkflowGraph, order: seq<string>, path: seq<string>, s: Run, tried: seq<Edge>)
    requires path != [] && Trying(g, path, s, tried, [])
    ensures TurnsBack(g, order, path) ==> Elements(path) <= s.inLoop
  {
    OutgoingEdgesAre(g.Edges, path[|path| - 1]);
    if TurnsBack(g, order, path) {
      var x :| x in path && (path[|path| - 1], x) in Links(g);
      var e :| e in g.Edges && e.From == path[|path| - 1] && e.To == x;
      assert tried + [] == tried && e in tried;
    }
  }

  lemma {:induction false} VisitEdgeKnows(g: WorkflowGraph, order: seq<string>, tried: seq<Edge>, es: seq<Edge>,
                                          path: seq<string>, s: Run)
    requires ListsAll(g, order) && Good(g, path, s) && path != [] && path[|path| - 1] in g.Nodes && Known(g, order, s)
    requires TracedHere(g, order, path, s.state) && MarkPath(g, order, path) && Trying(g, path, s, tried, es)
    requires es != [] && es[0] in g.Edges && es[0].From == path[|path| - 1]
    ensures var t, target := VisitEdge(g, es, path, s), es[0].To;
            && Good(g, path, t) && Grows(path, s, t) && Known(g, order, t)
            && (target in g.Nodes ==> Shut(g, path, t.state, target))
            && (target in path ==> Elements(path) <= t.inLoop)
    decreases g.Nodes.Keys - s.state.Keys, |es|, 0
  {
    var t, target := VisitEdge(g, es, path, s), es[0].To;
    VisitEdgeKeeps(g, es, path, s);
    if target in s.state {
      if s.state[target] == InProgress {
        KnownOnBackEdge(g, order, path, target, s);
      }
    } else if target in g.Nodes {
      FirstIsNext(g, path, s, tried, es);
      TracedStep(g, ByEdge(g), EntryThenOrder(g, order), path, s.state, target);
      VisitKnows(g, order, target, path, s);
    }
    SweepsLeadsOn(g, path, t.state, Accounted(g, t.inLoop));
    if target in g.Nodes {
      DoneIsShut(g, path, t.state, target);
    }
  }

  // ----- The whole search

  ghost predicate InTurn(g: WorkflowGraph, order: seq<string>, k: nat, s: Run)
    requires k <= |order|
  {
    forall v :: v in order[..k] || (v == g.EntryNodeID && v in g.Nodes) ==> Done(s.state, v)
  }

  lemma RootIsTraced(g: WorkflowGraph, order: seq<string>, k: nat, s: Run)
    requires ListsAll(g, order) && k < |order| && Good(g, [], s) && InTurn(g, order, k, s) && order[k] !in s.state
    ensures TracedHere(g, order, [order[k]], s.state)
  {
    var r := order[k];
    assert r in order;
    SweepsLeadsOn(g, [], s.state, Accounted(g, s.inLoop));
    forall u, y | EntryThenOrder(g, order)(u, r) && Reaches(Links(g), u, y) ensures Done(s.state, y) {
      if u != g.EntryNodeID {
        var i :| 0 <= i < |order| && order[i] == u && r !in order[..i + 1];
        assert forall m :: 0 <= m <= i ==> order[..i + 1][m] == order[m];
        assert order[..k][i] == u;
      }
      DoneRootIsShut(g, s.state, u);
    }
    TracedRoot(g, ByEdge(g), EntryThenOrder(g, order), s.state, r);
  }

  lemma RootKnows(g: WorkflowGraph, order: seq<string>, k: nat, s: Run)
    requires ListsAll(g, order) && k < |order| && order[k] in g.Nodes
    requires Good(g, [], s) && Known(g, order, s) && InTurn(g, order, k, s)
    ensures var t := if order[k] in s.state then s else Visit(g, order[k], [], s);
            Good(g, [], t) && Known(g, order, t) && InTurn(g, order, k + 1, t)
  {
    var id := order[k];
    if id !in s.state {
      RootIsTraced(g, order, k, s);
      assert [] + [id] == [id];
      VisitKeeps(g, id, [], s);
      VisitKnows(g, order, id, [], s);
    }
    InTurnStep(g, order, k, s, if id in s.state then s else Visit(g, id, [], s));
  }

  lemma InTurnStep(g: WorkflowGraph, order: seq<string>, k: nat, s: Run, t: Run)
    requires k < |order| && InTurn(g, order, k, s) && Done(t.state, order[k])
    requires forall v :: Done(s.state, v) ==> Done(t.state, v)
    ensures InTurn(g, order, k + 1, t)
  {
    assert order[..k + 1] == order[..k] + [order[k]];
  }

  lemma {:induction false} RootsKnow(g: WorkflowGraph, order: seq<string>, k: nat, s: Run)
    requires ListsAll(g, order) && k <= |order| && Good(g, [], s) && Known(g, order, s) && InTurn(g, order, k, s)
    requires forall v :: v in order[k..] ==> v in g.Nodes
    ensures Known(g, order, VisitRoots(g, order[k..], s))
    decreases |order| - k
  {
    if k < |order| {
      var id := order[k];
      assert order[k..][0] == id && order[k..][1..] == order[k + 1..] && id in order;
      RootKnows(g, order, k, s);
      RootsKnow(g, order, k + 1, if id in s.state then s else Visit(g, id, [], s));
    }
  }

  lemma EntryKnows(g: WorkflowGraph, order: seq<string>)
    requires ListsAll(g, order)
    ensures Known(g, order, FromEntry(g))
  {
    assert Good(g, [], EMPTY_RUN) && Known(g, order, EMPTY_RUN);
    if g.EntryNodeID in g.Nodes {
      TracedRoot(g, ByEdge(g), EntryThenOrder(g, order), EMPTY_RUN.state, g.EntryNodeID);
      assert [] + [g.EntryNodeID] == [g.EntryNodeID];
      VisitKnows(g, order, g.EntryNodeID, [], EMPTY_RUN);
    }
  }

  // ----- Main results

  /** A node is marked exactly when it lies on the search path to some node that links back onto that path. */
  lemma MarkedAlongIff(g: WorkflowGraph, order: seq<string>, v: string)
    requires ListsAll(g, order)
    ensures v in Marks(g, order) <==> OnTurning(g, order, v)
  {
    EntryKnows(g, order);
    FromEntryIsGood(g);
    assert order[0..] == order && order[..0] == [];
    RootsKnow(g, order, 0, FromEntry(g));
    VisitRootsKeeps(g, order, FromEntry(g));
    if w :| TurnsBack(g, order, w) && v in w {
      assert w[|w| - 1] in w && w[|w| - 1] in g.Nodes;
    }
  }

  /** Ranging over the node map: any order. */
  method NodesInLoops(g: WorkflowGraph) returns (inLoop: set<string>)
    ensures exists order :: ListsAll(g, order) && inLoop == Marks(g, order)
                            && forall v :: v in inLoop <==> OnTurning(g, order, v)
    ensures forall c :: IsCycle(Links(g), c) ==> exists v :: v in c && v in inLoop
    ensures forall v :: v in inLoop ==> ReachesCycle(g, v)
    ensures g.EntryNodeID in g.Nodes ==> (g.EntryNodeID in inLoop <==> ReachesCycle(g, g.EntryNodeID))
  {
    var order := Keys(g.Nodes.Keys);
    var m := new Marker(g);
    if g.EntryNodeID in g.Nodes {
      m.Dfs(g.EntryNodeID);
    }
    for i := 0 to |order|
      invariant m.stack == []
      invariant VisitRoots(g, order, FromEntry(g)) == VisitRoots(g, order[i..], m.Value())
    {
      assert order[i..][1..] == order[i + 1..];
      if order[i] !in m.state {
        m.Dfs(order[i]);
      }
    }
    assert ListsAll(g, order) && Marks(g, order) == m.inLoop;
    forall v ensures v in m.inLoop <==> OnTurning(g, order, v) {
      MarkedAlongIff(g, order, v);
    }
    MarksHitEveryCycle(g, order);
    if g.EntryNodeID in g.Nodes {
      EntryMarkedIffItReachesACycle(g, order);
    }
    return m.inLoop;
  }
}
