/** Which nodes the cycle detector reports: an exact account of the search, its order included. */
module CycleReport {
  import opened Domain
  import opened Ordering
  import opened Paths
  import opened DepthFirst
  import opened SearchOrder
  import opened Cycle
  import opened CycleProperties

  // ----- The paths of the search

  /** Targets are tried in string order. */
  ghost function ByTarget(): Branches {
    (u: string, x: string, y: string) => StrLess(x, y)
  }

  /** The entry node is the first root; the others follow in string order. */
  ghost function EntryThenNames(g: WorkflowGraph): Roots {
    (u: string, r: string) => r != g.EntryNodeID && u in g.Nodes && (u == g.EntryNodeID || StrLess(u, r))
  }

  ghost predicate CyclePath(g: WorkflowGraph, w: seq<string>) {
    SearchPath(g, ByTarget(), EntryThenNames(g), w)
  }

  lemma NamesAreOrdered(x: string, y: string)
    requires x != y
    ensures StrLess(x, y) || StrLess(y, x)
  {
    if StrLe(x, y) && StrLe(y, x) {
      StrLeAntisymmetric(x, y);
    }
  }

  lemma OrdersAreTotal(g: WorkflowGraph)
    ensures TotalBranches(g, ByTarget()) && TotalRoots(g, EntryThenNames(g))
  {
    forall x: string, y: string | x != y ensures StrLess(x, y) || StrLess(y, x) {
      NamesAreOrdered(x, y);
    }
  }

  // ----- What the search knows

  /** The path to some node ends with a link back to v that the detector does not let pass. */
  ghost predicate Closes(g: WorkflowGraph, w: seq<string>, v: string) {
    CyclePath(g, w) && (w[|w| - 1], v) in Links(g) && v in w && Verdict(g, v, w).Some?
  }

  ghost predicate AllClosed(g: WorkflowGraph, w: seq<string>, seen: set<string>) {
    forall v :: Closes(g, w, v) ==> v in seen
  }

  ghost predicate JudgedOn(g: WorkflowGraph, w: seq<string>, f: CycleFinding) {
    Closes(g, w, f.NodeID) && Verdict(g, f.NodeID, w) == Some(f)
  }

  ghost predicate Judged(g: WorkflowGraph, f: CycleFinding) {
    exists w :: JudgedOn(g, w, f)
  }

  ghost predicate HasPath(g: WorkflowGraph, u: string) {
    exists w :: CyclePath(g, w) && w[|w| - 1] == u
  }

  ghost predicate Known(g: WorkflowGraph, s: Run) {
    && (forall w :: CyclePath(g, w) && Done(s.state, w[|w| - 1]) ==> AllClosed(g, w, s.seen))
    && (forall f :: f in s.findings ==> Judged(g, f))
    && (forall u :: u in s.state ==> HasPath(g, u))
  }

  ghost predicate TracedHere(g: WorkflowGraph, path: seq<string>, state: VisitStates) {
    Traced(g, ByTarget(), EntryThenNames(g), path, state)
  }

  /** The targets of the path's end that are still to be tried are those of es, in this order. */
  ghost predicate Trying(g: WorkflowGraph, path: seq<string>, s: Run, es: seq<Edge>)
    requires path != []
  {
    var u := path[|path| - 1];
    && SortedBy(EdgeLe, es)
    && (forall e :: e in es ==> e in g.Edges && e.From == u)
    && (forall x :: (u, x) in Links(g) ==> Shut(g, path, s.state, x) || exists e :: e in es && e.To == x)
    && (forall v :: Closes(g, path, v) ==> v in s.seen || exists e :: e in es && e.To == v)
  }

  lemma KnownOnEntry(g: WorkflowGraph, id: string, path: seq<string>, s: Run)
    requires Known(g, s) && CyclePath(g, path + [id])
    ensures Known(g, s.(state := s.state[id := InProgress]))
  {
    var t := s.(state := s.state[id := InProgress]);
    assert (path + [id])[|path + [id]| - 1] == id;
    forall w | CyclePath(g, w) && Done(t.state, w[|w| - 1]) ensures AllClosed(g, w, t.seen) {
      assert Done(s.state, w[|w| - 1]);
    }
  }

  lemma KnownOnLeave(g: WorkflowGraph, path: seq<string>, s: Run)
    requires Known(g, s) && CyclePath(g, path) && AllClosed(g, path, s.seen)
    ensures Known(g, s.(state := s.state[path[|path| - 1] := Completed]))
  {
    var id := path[|path| - 1];
    var t := s.(state := s.state[id := Completed]);
    OrdersAreTotal(g);
    forall w | CyclePath(g, w) && Done(t.state, w[|w| - 1]) ensures AllClosed(g, w, t.seen) {
      if w[|w| - 1] == id {
        SearchPathIsUnique(g, ByTarget(), EntryThenNames(g), w, path);
      } else {
        assert Done(s.state, w[|w| - 1]);
      }
    }
  }

  lemma KnownOnBackEdge(g: WorkflowGraph, target: string, path: seq<string>, s: Run)
    requires Known(g, s) && CyclePath(g, path) && target in path && (path[|path| - 1], target) in Links(g)
    ensures var r := CloseCycle(g, target, path, s);
            Known(g, r) && (Closes(g, path, target) ==> target in r.seen)
  {
    var r := CloseCycle(g, target, path, s);
    if target !in s.seen && Verdict(g, target, path).Some? {
      assert Closes(g, path, target);
      assert JudgedOn(g, path, Verdict(g, target, path).value);
      forall w | CyclePath(g, w) && Done(r.state, w[|w| - 1]) ensures AllClosed(g, w, r.seen) {
        assert AllClosed(g, w, s.seen);
      }
    }
  }

  lemma ShutGrows(g: WorkflowGraph, path: seq<string>, s: Run, t: Run)
    requires Grows(s, t)
    ensures forall x :: Shut(g, path, s.state, x) ==> Shut(g, path, t.state, x)
  {
    forall x | Shut(g, path, s.state, x) ensures Shut(g, path, t.state, x) {
      forall y | Around(g, path, x, y) ensures Done(t.state, y) {
        assert Done(s.state, y);
      }
    }
  }

  /** The first target still to be tried comes before all that is not shut. */
  lemma FirstIsNext(g: WorkflowGraph, path: seq<string>, s: Run, es: seq<Edge>)
    requires path != [] && es != [] && Trying(g, path, s, es)
    ensures forall x :: (path[|path| - 1], x) in Links(g) && StrLess(x, es[0].To) ==> Shut(g, path, s.state, x)
  {
    forall x | (path[|path| - 1], x) in Links(g) && StrLess(x, es[0].To) ensures Shut(g, path, s.state, x) {
      if e :| e in es && e.To == x {
        var k :| 0 <= k < |es| && es[k] == e;
        StrLeTotal(x, x);
        assert k == 0 || EdgeLe(es[0], es[k]);
      }
    }
  }

  lemma TryingStep(g: WorkflowGraph, path: seq<string>, s: Run, es: seq<Edge>, t: Run)
    requires path != [] && es != [] && Trying(g, path, s, es) && Grows(s, t)
    requires es[0].To in g.Nodes ==> Shut(g, path, t.state, es[0].To)
    requires Closes(g, path, es[0].To) ==> es[0].To in t.seen
    ensures Trying(g, path, t, es[1..])
  {
    var u := path[|path| - 1];
    assert forall e :: e in es ==> e == es[0] || e in es[1..];
    ShutGrows(g, path, s, t);
    forall x | (u, x) in Links(g) ensures Shut(g, path, t.state, x) || exists e :: e in es[1..] && e.To == x {
      if !Shut(g, path, s.state, x) {
        var e :| e in es && e.To == x;
      }
    }
    forall v | Closes(g, path, v) ensures v in t.seen || exists e :: e in es[1..] && e.To == v {
      if v !in s.seen {
        var e :| e in es && e.To == v;
      }
    }
  }

  lemma {:induction false} VisitKnows(g: WorkflowGraph, id: string, path: seq<string>, s: Run)
    requires Good(g, path, s) && id in g.Nodes && id !in s.state && Known(g, s)
    requires path != [] ==> (path[|path| - 1], id) in Links(g)
    requires TracedHere(g, path + [id], s.state)
    ensures Known(g, Visit(g, id, path, s))
    decreases g.Nodes.Keys - s.state.Keys, 0
  {
    var entered, longer := s.(state := s.state[id := InProgress]), path + [id];
    assert longer[|longer| - 1] == id;
    assert id in g.Nodes.Keys - s.state.Keys && id !in g.Nodes.Keys - entered.state.Keys;
    EnterKnows(g, id, path, s);
    VisitEdgesKnow(g, SortedOut(g, id), longer, entered);
    KnownOnLeave(g, longer, VisitEdges(g, SortedOut(g, id), longer, entered));
  }

  /** All is set for trying the edges of a node just entered. */
  lemma EnterKnows(g: WorkflowGraph, id: string, path: seq<string>, s: Run)
    requires Good(g, path, s) && id in g.Nodes && id !in s.state && Known(g, s)
    requires path != [] ==> (path[|path| - 1], id) in Links(g)
    requires TracedHere(g, path + [id], s.state)
    ensures var entered, longer := s.(state := s.state[id := InProgress]), path + [id];
            && Good(g, longer, entered) && Known(g, entered) && TracedHere(g, longer, entered.state)
            && CyclePath(g, longer) && Trying(g, longer, entered, SortedOut(g, id))
  {
    var entered, longer := s.(state := s.state[id := InProgress]), path + [id];
    assert longer[|longer| - 1] == id;
    TracedIsSearchPath(g, ByTarget(), EntryThenNames(g), longer, s.state);
    EnterKeeps(g, id, path, s.state, Accounted(g, s.seen));
    KnownOnEntry(g, id, path, s);
    TracedGrows(g, ByTarget(), EntryThenNames(g), longer, s.state, entered.state);
    StartsTrying(g, longer, entered);
  }

  lemma StartsTrying(g: WorkflowGraph, path: seq<string>, s: Run)
    requires path != []
    ensures Trying(g, path, s, SortedOut(g, path[|path| - 1]))
  {
    var u := path[|path| - 1];
    EdgeLeIsTotalPreorder();
    SortedIsSorted(EdgeLe, OutgoingEdges(g.Edges, u));
    SortedOutAre(g, u);
    forall x | (u, x) in Links(g) ensures exists e :: e in SortedOut(g, u) && e.To == x {
      var e :| e in g.Edges && e.From == u && e.To == x;
      assert e in SortedOut(g, u);
    }
  }

  lemma {:induction false} VisitEdgesKnow(g: WorkflowGraph, es: seq<Edge>, path: seq<string>, s: Run)
    requires Good(g, path, s) && path != [] && path[|path| - 1] in g.Nodes && Known(g, s)
    requires TracedHere(g, path, s.state) && CyclePath(g, path) && Trying(g, path, s, es)
    ensures var r := VisitEdges(g, es, path, s); Known(g, r) && AllClosed(g, path, r.seen)
    decreases g.Nodes.Keys - s.state.Keys, |es|
  {
    if es != [] {
      var t := VisitEdge(g, es, path, s);
      assert es[0] in es;
      VisitEdgeKnows(g, es, path, s);
      TryingStep(g, path, s, es, t);
      TracedGrows(g, ByTarget(), EntryThenNames(g), path, s.state, t.state);
      VisitEdgesKnow(g, es[1..], path, t);
    }
  }

  lemma {:induction false} VisitEdgeKnows(g: WorkflowGraph, es: seq<Edge>, path: seq<string>, s: Run)
    requires es != [] && Good(g, path, s) && path != [] && path[|path| - 1] in g.Nodes && Known(g, s)
    requires TracedHere(g, path, s.state) && CyclePath(g, path) && Trying(g, path, s, es)
    ensures var t, target := VisitEdge(g, es, path, s), es[0].To;
            && Good(g, path, t) && Grows(s, t) && Known(g, t)
            && (target in g.Nodes ==> Shut(g, path, t.state, target))
            && (Closes(g, path, target) ==> target in t.seen)
    decreases g.Nodes.Keys - s.state.Keys, |es|, 0
  {
    var t, target := VisitEdge(g, es, path, s), es[0].To;
    assert es[0] in es;
    if target in s.state {
      if s.state[target] == InProgress {
        CloseCycleKeeps(g, target, path, s);
        KnownOnBackEdge(g, target, path, s);
      }
    } else if target in g.Nodes {
      VisitKeeps(g, target, path, s);
      FirstIsNext(g, path, s, es);
      TracedStep(g, ByTarget(), EntryThenNames(g), path, s.state, target);
      VisitKnows(g, target, path, s);
    }
    SweepsLeadsOn(g, path, t.state, Accounted(g, t.seen));
    if target in g.Nodes {
      DoneIsShut(g, path, t.state, target);
    }
  }

  // ----- The whole search

  /** Whoever is tried as a root before one of these has been, or is among those before it. */
  ghost predicate InTurn(g: WorkflowGraph, ids: seq<string>, s: Run) {
    forall i, u :: 0 <= i < |ids| && EntryThenNames(g)(u, ids[i]) ==> Done(s.state, u) || u in ids[..i]
  }

  lemma RootIsTraced(g: WorkflowGraph, ids: seq<string>, s: Run)
    requires Good(g, [], s) && ids != [] && ids[0] in g.Nodes && InTurn(g, ids, s)
    ensures TracedHere(g, [ids[0]], s.state)
  {
    SweepsLeadsOn(g, [], s.state, Accounted(g, s.seen));
    forall u, y | EntryThenNames(g)(u, ids[0]) && Reaches(Links(g), u, y) ensures Done(s.state, y) {
      assert ids[..0] == [];
      DoneRootIsShut(g, s.state, u);
    }
    TracedRoot(g, ByTarget(), EntryThenNames(g), s.state, ids[0]);
  }

  lemma InTurnStep(g: WorkflowGraph, ids: seq<string>, s: Run, t: Run)
    requires ids != [] && InTurn(g, ids, s) && Grows(s, t) && Done(t.state, ids[0])
    ensures InTurn(g, ids[1..], t)
  {
    var later := ids[1..];
    forall i, u | 0 <= i < |later| && EntryThenNames(g)(u, later[i]) ensures Done(t.state, u) || u in later[..i] {
      assert later[i] == ids[i + 1] && ids[..i + 1] == [ids[0]] + later[..i];
      assert EntryThenNames(g)(u, ids[i + 1]);
    }
  }

  lemma {:induction false} RootsKnow(g: WorkflowGraph, ids: seq<string>, s: Run)
    requires Good(g, [], s) && Known(g, s) && (forall v :: v in ids ==> v in g.Nodes) && InTurn(g, ids, s)
    ensures Known(g, VisitRoots(g, ids, s))
  {
    if ids != [] {
      assert ids[0] in ids;
      var t := if ids[0] in s.state then s else Visit(g, ids[0], [], s);
      if ids[0] !in s.state {
        RootIsTraced(g, ids, s);
        assert [] + [ids[0]] == [ids[0]];
        VisitKeeps(g, ids[0], [], s);
        VisitKnows(g, ids[0], [], s);
      }
      assert Done(t.state, ids[0]);
      InTurnStep(g, ids, s, t);
      RootsKnow(g, ids[1..], t);
    }
  }

  lemma EntryKnows(g: WorkflowGraph)
    ensures Known(g, FromEntry(g))
    ensures g.EntryNodeID in g.Nodes ==> Done(FromEntry(g).state, g.EntryNodeID)
  {
    assert Good(g, [], EMPTY_RUN) && Known(g, EMPTY_RUN);
    if g.EntryNodeID in g.Nodes {
      TracedRoot(g, ByTarget(), EntryThenNames(g), EMPTY_RUN.state, g.EntryNodeID);
      assert [] + [g.EntryNodeID] == [g.EntryNodeID];
      VisitKeeps(g, g.EntryNodeID, [], EMPTY_RUN);
      VisitKnows(g, g.EntryNodeID, [], EMPTY_RUN);
    }
  }

  lemma SmallerIsListedBefore(ids: seq<string>, i: nat, u: string)
    requires SortedBy(StrLe, ids) && i < |ids| && u in ids && StrLess(u, ids[i])
    ensures u in ids[..i]
  {
    var k :| 0 <= k < |ids| && ids[k] == u;
    StrLeTotal(u, u);
    assert k < i;
    assert ids[..i][k] == u;
  }

  lemma NamesInTurn(g: WorkflowGraph, ids: seq<string>)
    requires ListsNodes(g, ids)
    ensures InTurn(g, ids, FromEntry(g))
  {
    EntryKnows(g);
    ListsNodesAre(g, ids);
    forall i, u | 0 <= i < |ids| && EntryThenNames(g)(u, ids[i]) ensures Done(FromEntry(g).state, u) || u in ids[..i] {
      if u != g.EntryNodeID {
        SmallerIsListedBefore(ids, i, u);
      }
    }
  }

  lemma SearchKnows(g: WorkflowGraph, ids: seq<string>)
    requires ListsNodes(g, ids)
    ensures var r := Search(g, ids); Good(g, [], r) && Known(g, r) && forall v :: v in g.Nodes ==> Done(r.state, v)
  {
    ListsNodesAre(g, ids);
    EntryKnows(g);
    EntryIsGood(g);
    NamesInTurn(g, ids);
    RootsKnow(g, ids, FromEntry(g));
    SearchIsGood(g, ids);
  }

  // ----- In terms of the graph alone

  /** The loop answerable for the link from the end of the path back to w[i] is bounded below 100. */
  ghost predicate Silenced(g: WorkflowGraph, w: seq<string>, i: nat)
    requires i < |w|
  {
    exists k: nat | k < |w| :: Governs(g, w, i, k) && Bounded(g, w[k])
  }

  /** The path to some node ends with a link back to w[i], and no bounded loop answers for it. */
  ghost predicate Offends(g: WorkflowGraph, w: seq<string>, i: nat) {
    i < |w| && CyclePath(g, w) && (w[|w| - 1], w[i]) in Links(g) && !Silenced(g, w, i)
  }

  lemma SilencedIffNoVerdict(g: WorkflowGraph, w: seq<string>, i: nat)
    requires BackEdge(g, w, i)
    ensures Verdict(g, w[i], w).None? <==> Silenced(g, w, i)
  {
    if k: nat :| k < |w| && Governs(g, w, i, k) {
      VerdictUnderLoop(g, w, i, k);
      OneGoverns(g, w, i, k);
    } else {
      VerdictWithoutLoop(g, w, i);
    }
  }

  lemma OneGoverns(g: WorkflowGraph, w: seq<string>, i: nat, k: nat)
    requires i < |w| && k < |w| && Governs(g, w, i, k)
    ensures forall j: nat | j < |w| && Governs(g, w, i, j) :: j == k
  {}

  /** What is said of a back edge for which the loop `node` answers; `own` if it leads into that loop. */
  ghost predicate ToldOfLoop(node: Node, own: bool, f: CycleFinding) {
    && f.Confidence == 1.0
    && match GetMaxIterations(node)
       case Some(n) =>
         n >= 100 && if own then f.Severity == Warning && f.Message == LoopLarge(n)
                     else f.Severity == Info && f.Message == InsideLargeLoop(node.ID)
       case None =>
         if Configured(node) then
           if own then f.Severity == Critical && f.Message == LoopUnparseable
           else f.Severity == Info && f.Message == InsideLargeLoop(node.ID)
         else
           f.Severity == Critical && f.Message == if own then LoopUnset else InsideUnsetLoop(node.ID)
  }

  /** All that w[i] leads to lies on the path from there on and has no exit branch. */
  ghost predicate NoWayOut(g: WorkflowGraph, w: seq<string>, i: nat)
    requires i < |w|
  {
    forall v :: Reaches(RawLinks(g), w[i], v) ==> v in w[i..] && !(v in g.Nodes && g.Nodes[v].HasExitBranch)
  }

  /** What is said of a back edge for which no loop answers. */
  ghost predicate ToldOfExit(trapped: bool, f: CycleFinding) {
    if trapped then f.Severity == Critical && f.Message == GraphDefinitionError && f.Confidence == 1.0
    else f.Severity == Warning && f.Message == ExitBranch && f.Confidence == 0.9
  }

  ghost predicate Told(g: WorkflowGraph, w: seq<string>, i: nat, f: CycleFinding) {
    && Offends(g, w, i) && f.NodeID == w[i] && f.RuleName == "cycle_detection"
    && (forall k: nat | k < |w| && Governs(g, w, i, k) :: ToldOfLoop(g.Nodes[w[k]], k == i, f))
    && ((forall k: nat | k < |w| :: !Governs(g, w, i, k)) ==> ToldOfExit(NoWayOut(g, w, i), f))
  }

  lemma VerdictUnderLoopTells(g: WorkflowGraph, w: seq<string>, i: nat, k: nat, f: CycleFinding)
    requires BackEdge(g, w, i) && k < |w| && Governs(g, w, i, k) && Verdict(g, w[i], w) == Some(f)
    ensures ToldOfLoop(g.Nodes[w[k]], k == i, f)
  {
    WalkIsInNodes(g, w, w[i]);
    assert w[i] in w && w[k] in w;
    if !IsLoopNode(g.Nodes[w[i]].Type) {
      assert ParentControl(g.Nodes, w) == Some(g.Nodes[w[k]]);
    }
  }

  lemma VerdictWithoutLoopTells(g: WorkflowGraph, w: seq<string>, i: nat, f: CycleFinding)
    requires BackEdge(g, w, i) && Verdict(g, w[i], w) == Some(f)
    requires forall k: nat | k < |w| :: !Governs(g, w, i, k)
    ensures ToldOfExit(NoWayOut(g, w, i), f)
  {
    WalkIsInNodes(g, w, w[i]);
    assert w[i] in w;
    NoExitIffSegmentIsEverything(g, w, i);
    if IsLoopNode(g.Nodes[w[i]].Type) || ParentControl(g.Nodes, w).Some? {
      SomeLoopGoverns(g, w, i);
    }
  }

  lemma VerdictTells(g: WorkflowGraph, w: seq<string>, i: nat, f: CycleFinding)
    requires Offends(g, w, i) && Verdict(g, w[i], w) == Some(f)
    ensures Told(g, w, i, f)
  {
    assert BackEdge(g, w, i);
    forall k: nat | k < |w| && Governs(g, w, i, k) ensures ToldOfLoop(g.Nodes[w[k]], k == i, f) {
      VerdictUnderLoopTells(g, w, i, k, f);
    }
    if forall k: nat | k < |w| :: !Governs(g, w, i, k) {
      VerdictWithoutLoopTells(g, w, i, f);
    }
  }

  ghost predicate OffendedAt(g: WorkflowGraph, v: string) {
    exists w, i: nat :: Offends(g, w, i) && w[i] == v
  }

  ghost predicate ToldSomewhere(g: WorkflowGraph, f: CycleFinding) {
    exists w, i: nat :: Told(g, w, i, f)
  }

  // ----- Main results

  /** A node is reported exactly when the search path to some node ends with an offending link back to it. */
  lemma ReportedIff(g: WorkflowGraph, ids: seq<string>, v: string)
    requires ListsNodes(g, ids)
    ensures Reported(Search(g, ids).findings, v) <==> OffendedAt(g, v)
  {
    SearchKnows(g, ids);
    var r := Search(g, ids);
    if w, i: nat :| Offends(g, w, i) && w[i] == v {
      SilencedIffNoVerdict(g, w, i);
      assert Closes(g, w, v) && w[|w| - 1] in w;
      assert AllClosed(g, w, r.seen);
    }
    if f :| f in r.findings && f.NodeID == v {
      FindingsAreTold(g, ids, f);
    }
  }

  /**
   * Every finding says of such a link what its loop's bound or,
   * without a loop, the way out of the stack segment makes it.
   */
  lemma FindingsAreTold(g: WorkflowGraph, ids: seq<string>, f: CycleFinding)
    requires ListsNodes(g, ids) && f in Search(g, ids).findings
    ensures ToldSomewhere(g, f) && OffendedAt(g, f.NodeID)
  {
    SearchKnows(g, ids);
    assert Judged(g, f);
    var w :| JudgedOn(g, w, f);
    var i: nat :| i < |w| && w[i] == f.NodeID;
    SilencedIffNoVerdict(g, w, i);
    VerdictTells(g, w, i, f);
  }

  /** v lies on a cycle, and no root tried earlier leads to it. */
  ghost predicate RootOnCycle(g: WorkflowGraph, v: string) {
    v in g.Nodes && OnSimpleCycle(Links(g), v) && forall u :: EntryThenNames(g)(u, v) ==> !Reaches(Links(g), u, v)
  }

  /** The search path of a node on v's cycle starts at v. */
  lemma PathStartsAtRoot(g: WorkflowGraph, v: string, w: seq<string>)
    requires RootOnCycle(g, v) && CyclePath(g, w)
    requires Reaches(Links(g), v, w[|w| - 1]) && (w[|w| - 1], v) in Links(g)
    ensures w[0] == v
  {
    OrdersAreTotal(g);
    WalkSegment(Links(g), w, 0, |w| - 1);
    ReachesStep(Links(g), w[0], w[|w| - 1], v);
    assert w[0] in w;
  }

  /** Where no loop is bounded, a root on a cycle is reported: its cycles are closed while it is open. */
  lemma RootOnCycleIsReported(g: WorkflowGraph, ids: seq<string>, v: string)
    requires ListsNodes(g, ids) && (forall x :: !Bounded(g, x)) && RootOnCycle(g, v)
    ensures Reported(Search(g, ids).findings, v)
  {
    SearchKnows(g, ids);
    var c :| IsCycle(Links(g), c) && Distinct(c) && v in c;
    var u := CyclePredecessor(Links(g), c, v);
    CycleReaches(Links(g), c, v, u);
    assert u in g.Nodes && HasPath(g, u);
    var w :| CyclePath(g, w) && w[|w| - 1] == u;
    PathStartsAtRoot(g, v, w);
    assert Offends(g, w, 0);
    ReportedIff(g, ids, v);
  }

  /** No node comes before v in string order. */
  ghost predicate FirstName(g: WorkflowGraph, v: string) {
    v in g.Nodes && forall u :: u in g.Nodes ==> Alphabetical(v, u)
  }

  lemma NoneIsTriedBefore(g: WorkflowGraph, v: string)
    requires FirstName(g, v) && g.EntryNodeID !in g.Nodes
    ensures forall u :: !EntryThenNames(g)(u, v)
  {
    forall u | u in g.Nodes ensures StrLe(v, u) {
      StrLeIsAlphabetical(v, u);
    }
  }

  /** Ranging over the node map gives the identifiers in an arbitrary order; they are sorted before use. */
  method Analyze(g: WorkflowGraph) returns (findings: seq<CycleFinding>)
    ensures exists ids :: ListsNodes(g, ids) && findings == Search(g, ids).findings
    ensures forall v :: Reported(findings, v) <==> OffendedAt(g, v)
    ensures forall f :: f in findings ==> ToldSomewhere(g, f)
    ensures forall i, j :: 0 <= i < j < |findings| ==> findings[i].NodeID != findings[j].NodeID
    ensures (forall x :: !Bounded(g, x)) ==> forall v :: RootOnCycle(g, v) ==> Reported(findings, v)
    ensures (forall x :: !Bounded(g, x)) && g.EntryNodeID in g.Nodes && OnSimpleCycle(Links(g), g.EntryNodeID) ==>
              Reported(findings, g.EntryNodeID)
    ensures (forall x :: !Bounded(g, x)) && g.EntryNodeID !in g.Nodes ==>
              forall v :: FirstName(g, v) && OnSimpleCycle(Links(g), v) ==> Reported(findings, v)
  {
    var isolated := Keys(g.Nodes.Keys);
    StrLeIsTotalPreorder();
    isolated := SortSlice(StrLe, isolated);
    var d := new Detector(g);
    ListsNodesAre(g, isolated);
    if g.EntryNodeID in g.Nodes {
      d.Dfs(g.EntryNodeID, []);
    }
    assert d.Value() == FromEntry(g);
    d.SearchEach(isolated);
    assert d.Value() == Search(g, isolated);
    findings := d.findings;
    ReportIsTold(g, isolated);
    assert OnSimpleCycle(Links(g), g.EntryNodeID) && g.EntryNodeID in g.Nodes ==> RootOnCycle(g, g.EntryNodeID);
    forall v | g.EntryNodeID !in g.Nodes && FirstName(g, v) && OnSimpleCycle(Links(g), v) ensures RootOnCycle(g, v) {
      NoneIsTriedBefore(g, v);
    }
  }

  lemma ReportIsTold(g: WorkflowGraph, ids: seq<string>)
    requires ListsNodes(g, ids)
    ensures var fs := Search(g, ids).findings;
            && (forall v :: Reported(fs, v) <==> OffendedAt(g, v))
            && (forall f :: f in fs ==> ToldSomewhere(g, f))
            && (forall i, j :: 0 <= i < j < |fs| ==> fs[i].NodeID != fs[j].NodeID)
            && ((forall x :: !Bounded(g, x)) ==> forall v :: RootOnCycle(g, v) ==> Reported(fs, v))
  {
    var fs := Search(g, ids).findings;
    forall v ensures Reported(fs, v) <==> OffendedAt(g, v) {
      ReportedIff(g, ids, v);
    }
    forall f | f in fs ensures ToldSomewhere(g, f) {
      FindingsAreTold(g, ids, f);
    }
    ReportsAreCycles(g, ids);
    if forall x :: !Bounded(g, x) {
      forall v | RootOnCycle(g, v) ensures Reported(fs, v) {
        RootOnCycleIsReported(g, ids, v);
      }
    }
  }
}
