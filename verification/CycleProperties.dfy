/** What the cycle detector's report says about the directed cycles of the graph. */
module CycleProperties {
  import opened Domain
  import opened Ordering
  import opened Paths
  import opened DepthFirst
  import opened Cycle

  // ----- Declarative vocabulary

  /** A Loop or Control node whose max_iterations parses and is below 100. */
  predicate Bounded(g: WorkflowGraph, v: string) {
    v in g.Nodes && (g.Nodes[v].Type == Loop || g.Nodes[v].Type == Control)
    && GetMaxIterations(g.Nodes[v]).Some? && GetMaxIterations(g.Nodes[v]).value < 100
  }

  /** Some bounded loop leads to v. */
  ghost predicate Governed(g: WorkflowGraph, v: string) {
    exists p :: Bounded(g, p) && Reaches(Links(g), p, v)
  }

  /**
   * Nothing that starts at v can leave: all it reaches exists, leads
   * back to v, has no exit branch and is no loop guard.
   */
  ghost predicate Trap(g: WorkflowGraph, v: string) {
    forall w :: Reaches(RawLinks(g), v, w) ==>
      && w in g.Nodes
      && Reaches(RawLinks(g), w, v)
      && !g.Nodes[w].HasExitBranch
      && g.Nodes[w].Type != Loop && g.Nodes[w].Type != Control
  }

  ghost predicate Reported(findings: seq<CycleFinding>, v: string) {
    exists f :: f in findings && f.NodeID == v
  }

  // ----- The search invariant

  /** The edge from the end of a walk without repetition back into the walk. */
  ghost predicate BackEdge(g: WorkflowGraph, path: seq<string>, i: nat) {
    IsWalk(Links(g), path) && Distinct(path) && i < |path| && (path[|path| - 1], path[i]) in Links(g)
  }

  ghost predicate VerdictOnBackEdge(g: WorkflowGraph, path: seq<string>, i: nat, f: CycleFinding) {
    BackEdge(g, path, i) && path[i] == f.NodeID && Verdict(g, f.NodeID, path) == Some(f)
  }

  ghost predicate Justified(g: WorkflowGraph, f: CycleFinding) {
    && f.RuleName == RULE
    && OnSimpleCycle(Links(g), f.NodeID)
    && (exists path, i: nat :: VerdictOnBackEdge(g, path, i, f))
    && (f.Message == GraphDefinitionError ==> f.Severity == Critical && Trap(g, f.NodeID))
  }

  /** Findings are justified, one per node, and `seen` holds their nodes. */
  ghost predicate Sound(g: WorkflowGraph, s: Run) {
    && (forall f :: f in s.findings ==> Justified(g, f))
    && (forall i, j :: 0 <= i < j < |s.findings| ==> s.findings[i].NodeID != s.findings[j].NodeID)
    && (forall v :: v in s.seen <==> Reported(s.findings, v))
  }

  /** Edges whose cycle is reported at its target, or to whose source a bounded loop leads. */
  ghost function Accounted(g: WorkflowGraph, seen: set<string>): set<(string, string)> {
    set p | p in Links(g) && (p.1 in seen || Governed(g, p.0))
  }

  ghost predicate Good(g: WorkflowGraph, path: seq<string>, s: Run) {
    Sweeps(g, path, s.state, Accounted(g, s.seen)) && Sound(g, s)
  }

  ghost predicate Grows(s: Run, r: Run) {
    && s.state.Keys <= r.state.Keys
    && s.seen <= r.seen
    && (forall v :: Done(s.state, v) ==> Done(r.state, v))
  }

  // ----- One back edge

  lemma CycleSetIsSegment(path: seq<string>, i: nat)
    requires i < |path| && Distinct(path)
    ensures CycleSet(path[i], path) == set v | v in path[i..]
  {
    if i > 0 {
      CycleSetIsSegment(path[1..], i - 1);
      assert path[1..][i - 1..] == path[i..];
    } else {
      assert path[0..] == path;
    }
  }

  /** With no exit, the stack segment is exactly what the entry node reaches, and it is strongly connected. */
  lemma SegmentIsReachable(g: WorkflowGraph, path: seq<string>, i: nat)
    requires BackEdge(g, path, i)
    ensures forall v :: v in CycleSet(path[i], path) ==>
              Reaches(RawLinks(g), path[i], v) && Reaches(RawLinks(g), v, path[i])
  {
    assert Links(g) <= RawLinks(g);
    CycleSetIsSegment(path, i);
    forall v | v in path[i..]
      ensures Reaches(RawLinks(g), path[i], v) && Reaches(RawLinks(g), v, path[i])
    {
      var j :| i <= j < |path| && path[j] == v;
      WalkSegment(Links(g), path, i, j);
      WalkSegment(Links(g), path, j, |path| - 1);
      ReachesStep(Links(g), v, path[|path| - 1], path[i]);
      ReachesMonotone(Links(g), RawLinks(g), path[i], v);
      ReachesMonotone(Links(g), RawLinks(g), v, path[i]);
    }
  }

  /**
   * The exit test is exact for the stack segment: it answers "no" precisely when everything the entry node
   * reaches, dangling targets included, lies on the segment and none of it is flagged with an exit branch.
   */
  lemma NoExitIffSegmentIsEverything(g: WorkflowGraph, path: seq<string>, i: nat)
    requires BackEdge(g, path, i)
    ensures !Leaves(g, CycleSet(path[i], path)) <==>
            forall v :: Reaches(RawLinks(g), path[i], v) ==>
              v in path[i..] && !(v in g.Nodes && g.Nodes[v].HasExitBranch)
  {
    var seg := CycleSet(path[i], path);
    CycleSetIsSegment(path, i);
    SegmentIsReachable(g, path, i);
    if !Leaves(g, seg) {
      assert Closed(RawLinks(g), seg);
      forall v | Reaches(RawLinks(g), path[i], v) ensures v in seg {
        assert path[i] in path[i..];
        ReachesStaysIn(RawLinks(g), seg, path[i], v);
      }
    } else if e :| e in g.Edges && e.From in seg && e.To !in seg {
      assert (e.From, e.To) in RawLinks(g);
      ReachesStep(RawLinks(g), path[i], e.From, e.To);
    }
  }

  /** v and w lie in the same strongly connected component. */
  ghost predicate SameComponent(g: WorkflowGraph, v: string, w: string) {
    Reaches(RawLinks(g), v, w) && Reaches(RawLinks(g), w, v)
  }

  /** What the exit test is documented to look for: an edge out of v's component, or an exit branch in it. */
  ghost predicate ComponentHasExit(g: WorkflowGraph, v: string) {
    || (exists e :: e in g.Edges && SameComponent(g, v, e.From) && !SameComponent(g, v, e.To))
    || (exists w :: SameComponent(g, v, w) && w in g.Nodes && g.Nodes[w].HasExitBranch)
  }

  ghost predicate SegmentIsComponent(g: WorkflowGraph, path: seq<string>, i: nat)
    requires i < |path|
  {
    forall w :: SameComponent(g, path[i], w) ==> w in path[i..]
  }

  /** Without an exit from the segment, the segment is the whole component and has no exit either. */
  lemma NoExitIsComponentWide(g: WorkflowGraph, path: seq<string>, i: nat)
    requires BackEdge(g, path, i)
    requires !Leaves(g, CycleSet(path[i], path))
    ensures SegmentIsComponent(g, path, i) && !ComponentHasExit(g, path[i])
  {
    NoExitIffSegmentIsEverything(g, path, i);
    forall e | e in g.Edges && SameComponent(g, path[i], e.From) ensures SameComponent(g, path[i], e.To) {
      assert (e.From, e.To) in RawLinks(g);
      ReachesStep(RawLinks(g), path[i], e.From, e.To);
      CycleSetIsSegment(path, i);
      SegmentIsReachable(g, path, i);
      assert e.To in path[i..];
    }
  }

  /**
   * The test meets its documentation exactly when the component does have an exit or the stack segment is all of it.
   */
  lemma ExitTestIsRightIff(g: WorkflowGraph, path: seq<string>, i: nat)
    requires BackEdge(g, path, i)
    ensures (Leaves(g, CycleSet(path[i], path)) <==> ComponentHasExit(g, path[i])) <==>
            ComponentHasExit(g, path[i]) || SegmentIsComponent(g, path, i)
  {
    if !Leaves(g, CycleSet(path[i], path)) {
      NoExitIsComponentWide(g, path, i);
    } else if SegmentIsComponent(g, path, i) {
      SegmentIsReachable(g, path, i);
      CycleSetIsSegment(path, i);
    }
  }

  lemma WalkIsInNodes(g: WorkflowGraph, path: seq<string>, back: string)
    requires IsWalk(Links(g), path) && (path[|path| - 1], back) in Links(g)
    ensures forall v :: v in path ==> v in g.Nodes
  {
    forall k | 0 <= k < |path| ensures path[k] in g.Nodes {
      if k < |path| - 1 {
        assert (path[k], path[k + 1]) in Links(g);
      }
    }
  }

  lemma SegmentIsSimpleCycle(g: WorkflowGraph, path: seq<string>, i: nat)
    requires BackEdge(g, path, i)
    ensures OnSimpleCycle(Links(g), path[i])
  {
    WalkSegment(Links(g), path, i, |path| - 1);
    var c := path[i..|path| - 1 + 1];
    assert IsCycle(Links(g), c) && Distinct(c) && c[0] == path[i];
  }

  lemma NoExitIsATrap(g: WorkflowGraph, path: seq<string>, i: nat)
    requires BackEdge(g, path, i)
    requires ParentControl(g.Nodes, path).None? && !Leaves(g, CycleSet(path[i], path))
    ensures Trap(g, path[i])
  {
    WalkIsInNodes(g, path, path[i]);
    CycleSetIsSegment(path, i);
    NoExitIffSegmentIsEverything(g, path, i);
    SegmentIsReachable(g, path, i);
    forall w | Reaches(RawLinks(g), path[i], w)
      ensures w in path && Reaches(RawLinks(g), w, path[i])
    {
      assert w in path[i..];
    }
  }

  /** The verdict on a back edge is justified; no verdict means a bounded loop leads to the edge's source. */
  lemma VerdictIsRight(g: WorkflowGraph, path: seq<string>, i: nat)
    requires BackEdge(g, path, i)
    ensures match Verdict(g, path[i], path)
            case Some(f) => Justified(g, f) && f.NodeID == path[i]
            case None => Governed(g, path[|path| - 1])
  {
    match Verdict(g, path[i], path)
    case None =>
      WalkIsInNodes(g, path, path[i]);
      var k :| 0 <= k < |path| && Bounded(g, path[k]);
      WalkSegment(Links(g), path, k, |path| - 1);
    case Some(f) =>
      SegmentIsSimpleCycle(g, path, i);
      assert VerdictOnBackEdge(g, path, i, f);
      if f.Message == GraphDefinitionError {
        NoExitIsATrap(g, path, i);
      }
  }

  /**
   * The loop answerable for a back edge into path[i]: the entry node
   * itself if it is one, else the nearest loop on the stack.
   */
  ghost predicate Governs(g: WorkflowGraph, path: seq<string>, i: nat, k: nat)
    requires i < |path|
  {
    k < |path| && LoopAt(g, path[k])
    && if LoopAt(g, path[i]) then k == i else forall j :: k < j < |path| ==> !LoopAt(g, path[j])
  }

  /** The node's configuration says something about the bound, if only something unreadable. */
  predicate Configured(n: Node) {
    "max_iterations" in n.Config && n.Config["max_iterations"] != Null
  }

  predicate LoopAt(g: WorkflowGraph, v: string) {
    v in g.Nodes && (g.Nodes[v].Type == Loop || g.Nodes[v].Type == Control)
  }

  /** Under an answerable loop, the loop's bound alone decides whether and how severely a back edge is reported. */
  lemma VerdictUnderLoop(g: WorkflowGraph, path: seq<string>, i: nat, k: nat)
    requires IsWalk(Links(g), path) && i < |path| && (path[|path| - 1], path[i]) in Links(g)
    requires Governs(g, path, i, k)
    ensures var verdict, bound := Verdict(g, path[i], path), GetMaxIterations(g.Nodes[path[k]]);
            && (verdict.None? <==> bound.Some? && bound.value < 100)
            && (verdict.Some? ==>
                  (verdict.value.Severity == Critical <==>
                     bound.None? && (k == i || !Configured(g.Nodes[path[k]])))
                  && (verdict.value.Severity == Warning <==> bound.Some? && k == i))
  {
    WalkIsInNodes(g, path, path[i]);
    assert path[i] in g.Nodes && path[k] in path;
    if !IsLoopNode(g.Nodes[path[i]].Type) {
      assert ParentControl(g.Nodes, path) == Some(g.Nodes[path[k]]);
    }
  }

  /** Without one, a back edge is always reported, and Critical exactly when nothing leads off the stack segment. */
  lemma VerdictWithoutLoop(g: WorkflowGraph, path: seq<string>, i: nat)
    requires BackEdge(g, path, i)
    requires forall k: nat | k < |path| :: !Governs(g, path, i, k)
    ensures var verdict := Verdict(g, path[i], path);
            && verdict.Some? && verdict.value.Severity in {Critical, Warning}
            && (verdict.value.Severity == Critical <==>
                  forall v :: Reaches(RawLinks(g), path[i], v) ==>
                    v in path[i..] && !(v in g.Nodes && g.Nodes[v].HasExitBranch))
  {
    WalkIsInNodes(g, path, path[i]);
    assert path[i] in path;
    if IsLoopNode(g.Nodes[path[i]].Type) || ParentControl(g.Nodes, path).Some? {
      SomeLoopGoverns(g, path, i);
    }
    NoExitIffSegmentIsEverything(g, path, i);
  }

  lemma SomeLoopGoverns(g: WorkflowGraph, path: seq<string>, i: nat)
    requires i < |path| && path[i] in g.Nodes
    requires IsLoopNode(g.Nodes[path[i]].Type) || ParentControl(g.Nodes, path).Some?
    ensures exists k: nat | k < |path| :: Governs(g, path, i, k)
  {
    if IsLoopNode(g.Nodes[path[i]].Type) {
      assert Governs(g, path, i, i);
    } else {
      var k: nat :| k < |path| && path[k] in g.Nodes && g.Nodes[path[k]] == ParentControl(g.Nodes, path).value
        && IsLoopNode(g.Nodes[path[k]].Type)
        && forall j :: k < j < |path| && path[j] in g.Nodes ==> !IsLoopNode(g.Nodes[path[j]].Type);
      assert Governs(g, path, i, k);
    }
  }

  // ----- Preservation

  lemma SoundGrows(g: WorkflowGraph, s: Run, f: CycleFinding)
    requires Sound(g, s) && Justified(g, f) && f.NodeID !in s.seen
    ensures Sound(g, s.(seen := s.seen + {f.NodeID}, findings := s.findings + [f]))
  {
    var r := s.(seen := s.seen + {f.NodeID}, findings := s.findings + [f]);
    forall v ensures v in r.seen <==> Reported(r.findings, v) {
      if v == f.NodeID {
        assert f in r.findings;
      } else if v in s.seen {
        var x :| x in s.findings && x.NodeID == v;
        assert x in r.findings;
      }
    }
    forall k | 0 <= k < |s.findings| ensures s.findings[k].NodeID != f.NodeID {
      assert s.findings[k] in s.findings;
    }
  }

  lemma CloseCycleKeeps(g: WorkflowGraph, target: string, path: seq<string>, s: Run)
    requires Good(g, path, s) && target in path && (path[|path| - 1], target) in Links(g)
    ensures var r := CloseCycle(g, target, path, s);
            Good(g, path, r) && Grows(s, r) && Handled(g, r.state, Accounted(g, r.seen), path[|path| - 1], target)
  {
    var r := CloseCycle(g, target, path, s);
    if target !in s.seen {
      var i :| 0 <= i < |path| && path[i] == target;
      VerdictIsRight(g, path, i);
      if Verdict(g, target, path).Some? {
        SoundGrows(g, s, Verdict(g, target, path).value);
      }
    }
    CoversGrows(g, s.state, r.state, Accounted(g, s.seen), Accounted(g, r.seen));
  }

  lemma {:induction false} VisitKeeps(g: WorkflowGraph, id: string, path: seq<string>, s: Run)
    requires Good(g, path, s) && id in g.Nodes && id !in s.state
    requires path != [] ==> (path[|path| - 1], id) in Links(g)
    ensures var r := Visit(g, id, path, s); Good(g, path, r) && Grows(s, r) && Done(r.state, id)
    decreases g.Nodes.Keys - s.state.Keys, 0
  {
    var entered := s.(state := s.state[id := InProgress]);
    assert id in g.Nodes.Keys - s.state.Keys && id !in g.Nodes.Keys - entered.state.Keys;
    EnterKeeps(g, id, path, s.state, Accounted(g, s.seen));
    SortedOutAre(g, id);
    var es := SortedOut(g, id);
    VisitEdgesKeeps(g, es, path + [id], entered);
    var r := VisitEdges(g, es, path + [id], entered);
    forall w | (id, w) in Links(g) ensures Handled(g, r.state, Accounted(g, r.seen), id, w) {
      var e :| e in g.Edges && e.From == id && e.To == w;
      assert e in es;
    }
    LeaveKeeps(g, id, path, r.state, Accounted(g, r.seen));
  }

  lemma {:induction false} VisitEdgesKeeps(g: WorkflowGraph, es: seq<Edge>, path: seq<string>, s: Run)
    requires Good(g, path, s) && path != [] && path[|path| - 1] in g.Nodes
    requires forall e :: e in es ==> e in g.Edges && e.From == path[|path| - 1]
    ensures var r := VisitEdges(g, es, path, s);
            && Good(g, path, r) && Grows(s, r)
            && forall e :: e in es ==> Handled(g, r.state, Accounted(g, r.seen), path[|path| - 1], e.To)
    decreases g.Nodes.Keys - s.state.Keys, |es|
  {
    if es != [] {
      var u, target := path[|path| - 1], es[0].To;
      assert es[0] in es;
      var t := VisitEdge(g, es, path, s);
      if target in s.state {
        if s.state[target] == InProgress {
          CloseCycleKeeps(g, target, path, s);
        }
      } else if target in g.Nodes {
        VisitKeeps(g, target, path, s);
      }
      assert Good(g, path, t) && Grows(s, t) && Handled(g, t.state, Accounted(g, t.seen), u, target);
      VisitEdgesKeeps(g, es[1..], path, t);
      var r := VisitEdges(g, es, path, s);
      HandledGrows(g, path, t.state, r.state, Accounted(g, t.seen), Accounted(g, r.seen), u, target);
      forall e | e in es ensures Handled(g, r.state, Accounted(g, r.seen), u, e.To) {
        assert e == es[0] || e in es[1..];
      }
    }
  }

  lemma {:induction false} VisitRootsKeeps(g: WorkflowGraph, ids: seq<string>, s: Run)
    requires Good(g, [], s) && forall v :: v in ids ==> v in g.Nodes
    ensures var r := VisitRoots(g, ids, s);
            Good(g, [], r) && Grows(s, r) && forall v :: v in ids ==> Done(r.state, v)
  {
    if ids != [] {
      assert ids[0] in ids;
      var t := if ids[0] in s.state then s else Visit(g, ids[0], [], s);
      if ids[0] !in s.state {
        VisitKeeps(g, ids[0], [], s);
      }
      assert Done(t.state, ids[0]);
      VisitRootsKeeps(g, ids[1..], t);
      forall v | v in ids ensures Done(VisitRoots(g, ids, s).state, v) {
        assert v == ids[0] || v in ids[1..];
      }
    }
  }

  lemma EntryIsGood(g: WorkflowGraph)
    ensures Good(g, [], FromEntry(g))
  {
    assert Good(g, [], EMPTY_RUN);
    if g.EntryNodeID in g.Nodes {
      VisitKeeps(g, g.EntryNodeID, [], EMPTY_RUN);
    }
  }

  lemma SearchIsGood(g: WorkflowGraph, ids: seq<string>)
    requires ListsNodes(g, ids)
    ensures var r := Search(g, ids); Good(g, [], r) && forall v :: v in g.Nodes ==> Done(r.state, v)
  {
    ListsNodesAre(g, ids);
    EntryIsGood(g);
    VisitRootsKeeps(g, ids, FromEntry(g));
  }

  // ----- Main results

  /** Each finding sits on a simple directed cycle, and no node is reported twice. */
  lemma ReportsAreCycles(g: WorkflowGraph, ids: seq<string>)
    requires ListsNodes(g, ids)
    ensures var fs := Search(g, ids).findings;
            && (forall f :: f in fs ==> f.RuleName == RULE && OnSimpleCycle(Links(g), f.NodeID))
            && (forall i, j :: 0 <= i < j < |fs| ==> fs[i].NodeID != fs[j].NodeID)
  {
    SearchIsGood(g, ids);
  }

  /** Every directed cycle holds a reported node or a node to which a bounded loop leads. */
  lemma EveryCycleIsReportedOrGoverned(g: WorkflowGraph, ids: seq<string>, c: seq<string>)
    requires ListsNodes(g, ids) && IsCycle(Links(g), c)
    ensures exists v :: v in c && (Reported(Search(g, ids).findings, v) || Governed(g, v))
  {
    SearchIsGood(g, ids);
    var r := Search(g, ids);
    CyclesAreDone(g, r.state, c);
    assert Hit(Accounted(g, r.seen), c);
  }

  /** Without a bounded loop the reported nodes are a feedback vertex set, so a cyclic graph is never passed over. */
  lemma ReportsHitEveryCycle(g: WorkflowGraph, ids: seq<string>)
    requires ListsNodes(g, ids) && forall v :: v in g.Nodes ==> !Bounded(g, v)
    ensures forall c :: IsCycle(Links(g), c) ==> exists v :: v in c && Reported(Search(g, ids).findings, v)
    ensures Search(g, ids).findings == [] <==> Acyclic(Links(g))
  {
    forall c | IsCycle(Links(g), c) ensures exists v :: v in c && Reported(Search(g, ids).findings, v) {
      EveryCycleIsReportedOrGoverned(g, ids, c);
    }
    ReportsAreCycles(g, ids);
    if Search(g, ids).findings != [] {
      assert OnSimpleCycle(Links(g), Search(g, ids).findings[0].NodeID);
    }
  }

  /** A "graph definition error" marks a region no run can leave. */
  lemma DefinitionErrorIsATrap(g: WorkflowGraph, ids: seq<string>, f: CycleFinding)
    requires ListsNodes(g, ids) && f in Search(g, ids).findings && f.Message == GraphDefinitionError
    ensures f.Severity == Critical && Trap(g, f.NodeID)
  {
    SearchIsGood(g, ids);
  }

  /**
   * The severity a back edge earns: by the bound of the loop answerable
   * for it, else by whether anything leads off the segment.
   */
  ghost predicate Earned(g: WorkflowGraph, path: seq<string>, i: nat, severity: Severity)
    requires i < |path|
  {
    && (forall k: nat | k < |path| && Governs(g, path, i, k) ::
          var bound := GetMaxIterations(g.Nodes[path[k]]);
          && (bound.None? || bound.value >= 100)
          && (severity == Critical <==> bound.None? && (k == i || !Configured(g.Nodes[path[k]])))
          && (severity == Warning <==> bound.Some? && k == i))
    && ((forall k: nat | k < |path| :: !Governs(g, path, i, k)) ==>
          severity in {Critical, Warning} &&
          (severity == Critical <==>
             forall v :: Reaches(RawLinks(g), path[i], v) ==>
               v in path[i..] && !(v in g.Nodes && g.Nodes[v].HasExitBranch)))
  }

  ghost predicate EarnedSomewhere(g: WorkflowGraph, f: CycleFinding) {
    exists path, i: nat :: BackEdge(g, path, i) && path[i] == f.NodeID && Earned(g, path, i, f.Severity)
  }

  /** Every reported severity is the one earned by a back edge into the reported node. */
  lemma SeveritiesAreEarned(g: WorkflowGraph, ids: seq<string>, f: CycleFinding)
    requires ListsNodes(g, ids) && f in Search(g, ids).findings
    ensures EarnedSomewhere(g, f)
  {
    SearchIsGood(g, ids);
    assert Justified(g, f);
    var path, i: nat :| VerdictOnBackEdge(g, path, i, f);
    VerdictIsEarned(g, path, i, f);
  }

  lemma VerdictIsEarned(g: WorkflowGraph, path: seq<string>, i: nat, f: CycleFinding)
    requires VerdictOnBackEdge(g, path, i, f)
    ensures Earned(g, path, i, f.Severity)
  {
    forall k: nat | k < |path| && Governs(g, path, i, k)
      ensures var bound := GetMaxIterations(g.Nodes[path[k]]);
              && (bound.None? || bound.value >= 100)
              && (f.Severity == Critical <==>
                    bound.None? && (k == i || !Configured(g.Nodes[path[k]])))
              && (f.Severity == Warning <==> bound.Some? && k == i)
    {
      VerdictUnderLoop(g, path, i, k);
    }
    if forall k: nat | k < |path| :: !Governs(g, path, i, k) {
      VerdictWithoutLoop(g, path, i);
    }
  }

  /**
   * A loop node is reported only for a missing or large bound of its
   * own: Critical without one, Warning with one from 100.
   */
  lemma LoopSeverityFollowsItsBound(g: WorkflowGraph, ids: seq<string>, f: CycleFinding)
    requires ListsNodes(g, ids) && f in Search(g, ids).findings
    requires f.NodeID in g.Nodes && IsLoopNode(g.Nodes[f.NodeID].Type)
    ensures match GetMaxIterations(g.Nodes[f.NodeID])
            case None => f.Severity == Critical
            case Some(n) => n >= 100 && f.Severity == Warning
  {
    SeveritiesAreEarned(g, ids, f);
    var path, i: nat :| BackEdge(g, path, i) && path[i] == f.NodeID && Earned(g, path, i, f.Severity);
    assert Governs(g, path, i, i);
  }

  // ----- Determinism

  ghost predicate SameUpToEdgeOrder(g: WorkflowGraph, h: WorkflowGraph) {
    g.Nodes == h.Nodes && g.EntryNodeID == h.EntryNodeID && multiset(g.Edges) == multiset(h.Edges)
  }

  lemma {:induction false} OutgoingMultiset(es: seq<Edge>, id: string, e: Edge)
    ensures multiset(OutgoingEdges(es, id))[e] == if e.From == id then multiset(es)[e] else 0
  {
    if es != [] {
      OutgoingMultiset(es[1..], id, e);
      assert es == [es[0]] + es[1..];
    }
  }

  lemma SameSortedOut(g: WorkflowGraph, h: WorkflowGraph, id: string)
    requires SameUpToEdgeOrder(g, h)
    ensures SortedOut(g, id) == SortedOut(h, id)
  {
    var a, b := OutgoingEdges(g.Edges, id), OutgoingEdges(h.Edges, id);
    forall e ensures multiset(a)[e] == multiset(b)[e] {
      OutgoingMultiset(g.Edges, id, e);
      OutgoingMultiset(h.Edges, id, e);
    }
    SortedMultiset(EdgeLe, a);
    EdgeLeIsTotalPreorder();
    SortedIsSorted(EdgeLe, a);
    SortedOutIsUnique(h, id, SortedOut(g, id));
  }

  lemma SameVerdict(g: WorkflowGraph, h: WorkflowGraph, entry: string, path: seq<string>)
    requires SameUpToEdgeOrder(g, h)
    ensures Verdict(g, entry, path) == Verdict(h, entry, path)
  {
    forall e ensures e in g.Edges <==> e in h.Edges {
      SameElements(g.Edges, h.Edges, e);
    }
  }

  lemma {:induction false} SameVisit(g: WorkflowGraph, h: WorkflowGraph, id: string, path: seq<string>, s: Run)
    requires SameUpToEdgeOrder(g, h) && id in g.Nodes && id !in s.state
    ensures Visit(g, id, path, s) == Visit(h, id, path, s)
    decreases g.Nodes.Keys - s.state.Keys, 0
  {
    var entered := s.(state := s.state[id := InProgress]);
    assert id in g.Nodes.Keys - s.state.Keys && id !in g.Nodes.Keys - entered.state.Keys;
    SameSortedOut(g, h, id);
    SameVisitEdges(g, h, SortedOut(g, id), path + [id], entered);
  }

  lemma {:induction false} SameVisitEdges(g: WorkflowGraph, h: WorkflowGraph, es: seq<Edge>, path: seq<string>, s: Run)
    requires SameUpToEdgeOrder(g, h)
    ensures VisitEdges(g, es, path, s) == VisitEdges(h, es, path, s)
    decreases g.Nodes.Keys - s.state.Keys, |es|
  {
    if es != [] {
      SameVerdict(g, h, es[0].To, path);
      if es[0].To !in s.state && es[0].To in g.Nodes {
        SameVisit(g, h, es[0].To, path, s);
      }
      SameVisitEdges(g, h, es[1..], path, VisitEdge(g, es, path, s));
    }
  }

  lemma {:induction false} SameVisitRoots(g: WorkflowGraph, h: WorkflowGraph, ids: seq<string>, s: Run)
    requires SameUpToEdgeOrder(g, h) && forall v :: v in ids ==> v in g.Nodes
    ensures VisitRoots(g, ids, s) == VisitRoots(h, ids, s)
  {
    if ids != [] {
      if ids[0] !in s.state {
        SameVisit(g, h, ids[0], [], s);
      }
      SameVisitRoots(g, h, ids[1..], if ids[0] in s.state then s else Visit(g, ids[0], [], s));
    }
  }

  /** Reordering the edge list changes nothing, and there is only one sorted listing of the nodes. */
  lemma ReportIsDeterministic(g: WorkflowGraph, h: WorkflowGraph, ids: seq<string>, jds: seq<string>)
    requires SameUpToEdgeOrder(g, h) && ListsNodes(g, ids) && ListsNodes(h, jds)
    ensures Search(g, ids) == Search(h, jds)
  {
    SortedStringsUnique(ids, jds);
    ListsNodesAre(g, ids);
    if g.EntryNodeID in g.Nodes {
      SameVisit(g, h, g.EntryNodeID, [], EMPTY_RUN);
    }
    SameVisitRoots(g, h, ids, FromEntry(g));
  }

  // ----- The exit test looks at the stack segment only

  /** n loops on itself and also goes round through z; nothing leads out. */
  function LoopWithin(): WorkflowGraph {
    WorkflowGraph(
      map["n" := PlainNode("n"), "z" := PlainNode("z")],
      [Edge("n", "n", ""), Edge("n", "z", ""), Edge("z", "n", "")],
      "n", false)
  }

  const EXIT_WARNING := NewFinding(RULE, Warning, "n", ExitBranch, 0.9)

  /** The Warning verdict does not mean a run can get out: the "exit" may lead to another part of the same component. */
  lemma ExitBranchMayStayInside(ids: seq<string>)
    requires ListsNodes(LoopWithin(), ids)
    ensures Search(LoopWithin(), ids).findings == [EXIT_WARNING]
  {
    var g := LoopWithin();
    SearchFromN();
    ListsNodesAre(g, ids);
    LeftAlone(g, ids, FromEntry(g));
  }

  lemma LoopWithinIsATrap()
    ensures Trap(LoopWithin(), "n")
  {
    var g := LoopWithin();
    var r := RawLinks(g);
    assert r == {("n", "n"), ("n", "z"), ("z", "n")} by {
      assert g.Edges[0] in g.Edges && g.Edges[1] in g.Edges && g.Edges[2] in g.Edges;
    }
    ReachesEdge(r, "n", "n");
    ReachesEdge(r, "z", "n");
    forall w | Reaches(r, "n", w) ensures w in {"n", "z"} {
      ReachesStaysIn(r, {"n", "z"}, "n", w);
    }
  }

  lemma VisitTwoEdges(g: WorkflowGraph, id: string, path: seq<string>, s: Run, e: Edge, f: Edge)
    requires id in g.Nodes && id !in s.state && SortedOut(g, id) == [e, f]
    ensures var t := VisitEdge(g, [e, f], path + [id], s.(state := s.state[id := InProgress]));
            var u := VisitEdge(g, [f], path + [id], t);
            Visit(g, id, path, s) == u.(state := u.state[id := Completed])
  {
    var t := VisitEdge(g, [e, f], path + [id], s.(state := s.state[id := InProgress]));
    assert [e, f][1..] == [f] && [f][1..] == [];
    assert VisitEdges(g, [f], path + [id], t) == VisitEdge(g, [f], path + [id], t);
  }

  /** The self-loop is judged first, while z is not on the stack. */
  lemma SearchFromN()
    ensures var r := FromEntry(LoopWithin());
            r.findings == [EXIT_WARNING] && r.state.Keys == LoopWithin().Nodes.Keys
  {
    var g := LoopWithin();
    LoopWithinOut();
    SelfLoopVerdict();
    VisitTwoEdges(g, "n", [], EMPTY_RUN, Edge("n", "n", ""), Edge("n", "z", ""));
    assert [] + ["n"] == ["n"];
    var s := Run(map["n" := InProgress], {}, []);
    assert EMPTY_RUN.(state := EMPTY_RUN.state["n" := InProgress]) == s;
    var t := Run(map["n" := InProgress], {"n"}, [EXIT_WARNING]);
    assert CloseCycle(g, "n", ["n"], s) == t;
    SearchFromZ(t);
  }

  lemma SelfLoopVerdict()
    ensures Verdict(LoopWithin(), "n", ["n"]) == Some(EXIT_WARNING)
  {
    var g := LoopWithin();
    assert g.Edges[1] in g.Edges && CycleSet("n", ["n"]) == {"n"};
    assert Leaves(g, {"n"});
    assert ["n"][..0] == [];
    assert ParentControl(g.Nodes, []).None?;
  }

  lemma SearchFromZ(s: Run)
    requires s.state.Keys == {"n"} && s.state["n"] == InProgress && s.seen == {"n"}
    ensures var r := Visit(LoopWithin(), "z", ["n"], s);
            r.state.Keys == {"n", "z"} && r.findings == s.findings
  {
    var g := LoopWithin();
    LoopWithinOut();
    var es, t := SortedOut(g, "z"), s.(state := s.state["z" := InProgress]);
    assert VisitEdges(g, es, ["n"] + ["z"], t) == VisitEdges(g, es[1..], ["n"] + ["z"], t) == t;
  }

  lemma LoopWithinOut()
    ensures SortedOut(LoopWithin(), "n") == [Edge("n", "n", ""), Edge("n", "z", "")]
    ensures SortedOut(LoopWithin(), "z") == [Edge("z", "n", "")]
  {
    var es := LoopWithin().Edges;
    assert es[1..] == [es[1], es[2]] && es[1..][1..] == [es[2]];
    assert OutgoingEdges(es, "n") == [es[0], es[1]] && OutgoingEdges(es, "z") == [es[2]];
  }

  /** Nodes already visited are not searched again. */
  lemma {:induction false} LeftAlone(g: WorkflowGraph, ids: seq<string>, s: Run)
    requires forall v :: v in ids ==> v in g.Nodes && v in s.state
    ensures VisitRoots(g, ids, s) == s
  {
    if ids != [] {
      assert ids[0] in ids;
      LeftAlone(g, ids[1..], s);
    }
  }
}
