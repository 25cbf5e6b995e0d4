/** What the order in which Go ranges over a map can change, and what it cannot, from the parsed graph to the report. */
module MapOrder {
  import opened Domain
  import opened Ordering
  import opened Orchestrator
  import Cycle
  import opened CycleProperties
  import opened N8n
  import opened N8nEdges
  import opened N8nEntry
  import Paths
  import Reachability
  import EvalMissing
  import LocalWalker

  // ----- Parsing twice

  lemma SameMembers(a: seq<Edge>, b: seq<Edge>)
    requires multiset(a) == multiset(b)
    ensures forall e :: e in a <==> e in b
  {
    forall e ensures e in a <==> e in b {
      SameElements(a, b, e);
    }
  }

  lemma SameIncoming(a: seq<Edge>, b: seq<Edge>)
    requires forall e :: e in a <==> e in b
    ensures forall id :: AnyIn(a, id) <==> AnyIn(b, id)
    ensures forall id :: (MainIn(a, id) <==> MainIn(b, id)) && (MainOut(a, id) <==> MainOut(b, id))
  {}

  lemma {:induction false} SameRoots(nodes: map<string, Node>, a: seq<Edge>, b: seq<Edge>, order: seq<string>)
    requires forall e :: e in a <==> e in b
    ensures FilterRoots(nodes, a, order) == FilterRoots(nodes, b, order)
  {
    if order != [] {
      SameIncoming(a, b);
      SameRoots(nodes, a, b, order[1..]);
    }
  }

  lemma SamePick(nodes: map<string, Node>, order: seq<string>, a: seq<Edge>, b: seq<Edge>, x: string, y: string)
    requires forall e :: e in a <==> e in b
    requires Picked(nodes, order, a, x) && Picked(nodes, order, b, y)
    ensures x == y
  {
    if order != [] {
      SameIncoming(a, b);
      var i: nat :| PickedAt(nodes, order, a, i) && x == order[i];
      var j: nat :| PickedAt(nodes, order, b, j) && y == order[j];
      assert HasHead(a, order) <==> HasHead(b, order);
      assert i == j;
    }
  }

  /** Two parses of one workflow differ in nothing but the order of edges. */
  lemma ParsesAgree(wf: Workflow, t: TypeTable, g: WorkflowGraph, h: WorkflowGraph)
    requires ParsesTo(wf, t, g) && ParsesTo(wf, t, h)
    ensures SameUpToEdgeOrder(g, h) && !g.EntryAmbiguous && !h.EntryAmbiguous
  {
    var s: Tables, a: seq<Edge> :| Parsed(wf, t, s, a) && Assembled(g, s.nodes, s.order, a);
    var s': Tables, b: seq<Edge> :| Parsed(wf, t, s', b) && Assembled(h, s'.nodes, s'.order, b);
    EdgeListsAgree(wf, s, a, b);
    SameMembers(a, b);
    AssembledAgree(s, a, b, g, h);
  }

  lemma AssembledAgree(s: Tables, a: seq<Edge>, b: seq<Edge>, g: WorkflowGraph, h: WorkflowGraph)
    requires multiset(a) == multiset(b) && forall e :: e in a <==> e in b
    requires Assembled(g, s.nodes, s.order, a) && Assembled(h, s.nodes, s.order, b)
    ensures SameUpToEdgeOrder(g, h) && !g.EntryAmbiguous && !h.EntryAmbiguous
  {
    SameRoots(s.nodes, a, b, s.order);
    if |FilterRoots(s.nodes, a, s.order)| < 2 {
      SamePick(s.nodes, s.order, a, b, g.EntryNodeID, h.EntryNodeID);
    }
  }

  /** So cycle_detection reports the same, in the same order, however often the workflow is parsed. */
  lemma CyclesSurviveReparsing(wf: Workflow, t: TypeTable, g: WorkflowGraph, h: WorkflowGraph, ids: seq<string>,
                               jds: seq<string>)
    requires ParsesTo(wf, t, g) && ParsesTo(wf, t, h) && Cycle.ListsNodes(g, ids) && Cycle.ListsNodes(h, jds)
    ensures Cycle.Search(g, ids) == Cycle.Search(h, jds)
  {
    ParsesAgree(wf, t, g, h);
    ReportIsDeterministic(g, h, ids, jds);
  }

  // ----- unreachable_node: one finding for each node, in map order

  lemma SameSteps(g: WorkflowGraph, h: WorkflowGraph)
    requires SameUpToEdgeOrder(g, h)
    ensures Reachability.Steps(g) == Reachability.Steps(h)
  {
    SameMembers(g.Edges, h.Edges);
  }

  lemma SameUnreached(g: WorkflowGraph, h: WorkflowGraph, x: seq<Reachability.ReachFinding>,
                      y: seq<Reachability.ReachFinding>)
    requires SameUpToEdgeOrder(g, h) && g.EntryAmbiguous == h.EntryAmbiguous
    requires Reachability.IsReport(g, x) && Reachability.IsReport(h, y)
    ensures Reachability.OncePerNode(x) && Reachability.OncePerNode(y) && forall f :: f in x ==> f in y
  {
    SameSteps(g, h);
    if g.EntryNodeID != "" && g.EntryNodeID in g.Nodes {
      forall f | f in x ensures f in y {
        assert Reachability.Reported(x, f.NodeID);
        assert Reachability.Reported(y, f.NodeID);
        var f' :| f' in y && f'.NodeID == f.NodeID;
        assert f' == Reachability.UnreachableFinding(h, f.NodeID) == Reachability.UnreachableFinding(g, f.NodeID);
      }
    }
  }

  /**
   * Any two outcomes of the rule on graphs that differ in edge order
   * only, whatever order the node map was ranged over in.
   */
  lemma UnreachableHasNoTies(g: WorkflowGraph, h: WorkflowGraph, templates: map<string, string>,
                             x: seq<Reachability.ReachFinding>, y: seq<Reachability.ReachFinding>)
    requires SameUpToEdgeOrder(g, h) && g.EntryAmbiguous == h.EntryAmbiguous
    requires Reachability.IsReport(g, x) && Reachability.IsReport(h, y)
    ensures SameTies(templates, x, y)
  {
    SameUnreached(g, h, x, y);
    SameUnreached(h, g, y, x);
    forall f ensures multiset(x)[f] == multiset(y)[f] {
      OnceEach(x, f);
      OnceEach(y, f);
    }
    OncePerNodeHasNoTies(templates, x);
    NoTiesAgree(templates, x, y);
  }

  /** Parsing, searching and scheduling twice gives the same report of unreachable nodes. */
  lemma UnreachableReportIsStable(wf: Workflow, t: TypeTable, g: WorkflowGraph, h: WorkflowGraph, rule: Rule,
                                  a: Rule -> seq<Reachability.ReachFinding>, b: Rule -> seq<Reachability.ReachFinding>,
                                  run: seq<State>, other: seq<State>)
    requires ParsesTo(wf, t, g) && ParsesTo(wf, t, h) && rule.name == Reachability.RULE
    requires Reachability.IsReport(g, a(rule)) && Reachability.IsReport(h, b(rule))
    requires IsRun([rule], run) && Finished(run[|run| - 1]) && IsRun([rule], other) && Finished(other[|other| - 1])
    ensures Report([rule], a, run[|run| - 1].combined) == Report([rule], b, other[|other| - 1].combined)
  {
    ParsesAgree(wf, t, g, h);
    UnreachableHasNoTies(g, h, Templates([rule]), a(rule), b(rule));
    UnreachableIsNamed(g, a(rule));
    UnreachableIsNamed(h, b(rule));
    OneRuleReports(rule, a, b, run, other);
  }

  lemma UnreachableIsNamed(g: WorkflowGraph, x: seq<Reachability.ReachFinding>)
    requires Reachability.IsReport(g, x)
    ensures forall f :: f in x ==> f.RuleName == Reachability.RULE
  {}

  lemma OneRuleReports<M(!new)>(rule: Rule, a: Rule -> seq<Finding<M>>, b: Rule -> seq<Finding<M>>, run: seq<State>,
                                other: seq<State>)
    requires Attributed([rule], a) && Attributed([rule], b) && SameTies(Templates([rule]), a(rule), b(rule))
    requires IsRun([rule], run) && Finished(run[|run| - 1]) && IsRun([rule], other) && Finished(other[|other| - 1])
    ensures Report([rule], a, run[|run| - 1].combined) == Report([rule], b, other[|other| - 1].combined)
  {
    ScheduleIndependence([rule], a, b, run, other);
  }

  // ----- Local rules: nodes in map order, each node's findings together

  /** The node handlers do not change the state they close over. */
  ghost predicate KeepsState<S, M>(r: LocalWalker.LocalRule<S, M>) {
    forall n :: LocalWalker.AtNode(r, n, LocalWalker.Progress(r.init, [])).state == r.init
  }

  function NodeShare<S, M>(r: LocalWalker.LocalRule<S, M>, n: Node): seq<Finding<M>> {
    LocalWalker.AtNode(r, n, LocalWalker.Progress(r.init, [])).findings
  }

  ghost predicate ReportsAtNode<S, M(!new)>(r: LocalWalker.LocalRule<S, M>) {
    forall n, f :: f in NodeShare(r, n) ==> f.NodeID == n.ID
  }

  lemma AtNodeAdds<S, M>(r: LocalWalker.LocalRule<S, M>, n: Node, p: LocalWalker.Progress<S, M>)
    requires KeepsState(r) && p.state == r.init
    ensures LocalWalker.AtNode(r, n, p) == LocalWalker.Progress(r.init, p.findings + NodeShare(r, n))
  {}

  lemma {:induction false} NodesKeepState<S, M>(g: WorkflowGraph, r: LocalWalker.LocalRule<S, M>, order: seq<string>)
    requires KeepsState(r) && forall id :: id in order ==> id in g.Nodes
    ensures LocalWalker.AfterNodes(g, r, order).state == r.init
  {
    if order != [] {
      var last := |order| - 1;
      NodesKeepState(g, r, order[..last]);
      AtNodeAdds(r, g.Nodes[order[last]], LocalWalker.AfterNodes(g, r, order[..last]));
    }
  }

  lemma NoClassElsewhere<M(!new)>(templates: map<string, string>, k: Finding<M>, fs: seq<Finding<M>>)
    requires forall f :: f in fs ==> f.NodeID != k.NodeID
    ensures Class(FindingLe<M>, k, NormaliseAll(templates, fs)) == []
  {
    if fs != [] {
      NoClassElsewhere(templates, k, fs[1..]);
      assert fs[0] in fs;
      var n := Normalise(templates, fs[0]);
      if FindingLe(k, n) && FindingLe(n, k) {
        TiesShareTheRule(k, n);
      }
    }
  }

  /** Ties of a node's finding come from that node's visit alone. */
  lemma {:induction false} ClassOfNodes<S, M(!new)>(g: WorkflowGraph, r: LocalWalker.LocalRule<S, M>,
                                                    order: seq<string>, templates: map<string, string>, k: Finding<M>)
    requires g.Keyed() && KeepsState(r) && ReportsAtNode(r)
    requires Paths.Distinct(order) && forall id :: id in order ==> id in g.Nodes
    ensures Class(FindingLe<M>, k, NormaliseAll(templates, LocalWalker.AfterNodes(g, r, order).findings))
         == if k.NodeID in order then Class(FindingLe<M>, k, NormaliseAll(templates, NodeShare(r, g.Nodes[k.NodeID])))
            else []
  {
    if order != [] {
      var last := |order| - 1;
      var init, n := order[..last], g.Nodes[order[last]];
      ClassOfNodes(g, r, init, templates, k);
      NodesKeepState(g, r, init);
      var before := LocalWalker.AfterNodes(g, r, init);
      AtNodeAdds(r, n, before);
      OneMoreNode(templates, k, before.findings, NodeShare(r, n));
      LastIsNew(order);
      if k.NodeID != order[last] {
        NoClassElsewhere(templates, k, NodeShare(r, n));
      }
    }
  }

  lemma LastIsNew(order: seq<string>)
    requires Paths.Distinct(order) && order != []
    ensures var last := |order| - 1;
            order[last] !in order[..last] && forall id :: id in order <==> id in order[..last] || id == order[last]
  {
    assert order == order[..|order| - 1] + [order[|order| - 1]];
  }

  lemma OneMoreNode<M(!new)>(templates: map<string, string>, k: Finding<M>, before: seq<Finding<M>>,
                             share: seq<Finding<M>>)
    ensures Class(FindingLe<M>, k, NormaliseAll(templates, before + share))
         == Class(FindingLe<M>, k, NormaliseAll(templates, before))
            + Class(FindingLe<M>, k, NormaliseAll(templates, share))
  {
    NormaliseConcat(templates, before, share);
    ClassConcat(FindingLe<M>, k, NormaliseAll(templates, before), NormaliseAll(templates, share));
  }

  lemma {:induction false} EdgesAdd<S, M>(r: LocalWalker.LocalRule<S, M>, edges: seq<Edge>,
                                          p: LocalWalker.Progress<S, M>)
    ensures var alone := LocalWalker.AfterEdges(r, edges, LocalWalker.Progress(p.state, []));
            LocalWalker.AfterEdges(r, edges, p) == LocalWalker.Progress(alone.state, p.findings + alone.findings)
  {
    if edges != [] {
      EdgesAdd(r, edges[..|edges| - 1], p);
    }
  }

  /** What the rule reports after the nodes, which does not depend on them. */
  function AfterwardsShare<S, M>(g: WorkflowGraph, r: LocalWalker.LocalRule<S, M>): seq<Finding<M>> {
    LocalWalker.HandleIfSet(r.name, r.listener.onGraph, g,
      LocalWalker.AfterEdges(r, g.Edges, LocalWalker.Progress(r.init, []))).findings
  }

  lemma AloneSplits<S, M>(g: WorkflowGraph, r: LocalWalker.LocalRule<S, M>, order: seq<string>)
    requires KeepsState(r) && forall id :: id in order ==> id in g.Nodes
    ensures LocalWalker.Alone(g, r, order) == LocalWalker.AfterNodes(g, r, order).findings + AfterwardsShare(g, r)
  {
    NodesKeepState(g, r, order);
    EdgesAdd(r, g.Edges, LocalWalker.AfterNodes(g, r, order));
  }

  /**
   * A Local rule that keeps no state between nodes and reports at the node it visits may be walked in any node order.
   */
  lemma NodeOrderDoesNotMatter<S, M(!new)>(g: WorkflowGraph, r: LocalWalker.LocalRule<S, M>, p: seq<string>,
                                           q: seq<string>, templates: map<string, string>)
    requires g.Keyed() && KeepsState(r) && ReportsAtNode(r)
    requires multiset(p) == multiset(q) == multiset(g.Nodes.Keys)
    requires forall id :: (id in p <==> id in g.Nodes) && (id in q <==> id in g.Nodes)
    ensures SameTies(templates, LocalWalker.Alone(g, r, p), LocalWalker.Alone(g, r, q))
  {
    ListsEachOnce(p, g.Nodes.Keys);
    ListsEachOnce(q, g.Nodes.Keys);
    AloneSplits(g, r, p);
    AloneSplits(g, r, q);
    var x, y := LocalWalker.AfterNodes(g, r, p).findings, LocalWalker.AfterNodes(g, r, q).findings;
    forall k: Finding<M>
      ensures Class(FindingLe<M>, k, NormaliseAll(templates, x + AfterwardsShare(g, r)))
           == Class(FindingLe<M>, k, NormaliseAll(templates, y + AfterwardsShare(g, r)))
    {
      ClassOfNodes(g, r, p, templates, k);
      ClassOfNodes(g, r, q, templates, k);
      OneMoreNode(templates, k, x, AfterwardsShare(g, r));
      OneMoreNode(templates, k, y, AfterwardsShare(g, r));
    }
  }

  // ----- eval_missing: two sources of one sink tie, in map order

  const A := PlainNode("a")
  const B := PlainNode("b")
  const K := PlainNode("k").(Type := Tool)

  /** Two LLM nodes, both leading straight to one code runner. */
  function SharedSink(): WorkflowGraph {
    WorkflowGraph(map["a" := A, "b" := B, "k" := K], [Edge("a", "k", ""), Edge("b", "k", "")], "a", false)
  }

  lemma SharedSinkPair(src: string, f: EvalMissing.EvalFinding)
    requires src in {"a", "b"}
    ensures EvalMissing.PairFinding(SharedSink(), src, [K], f) <==> f == EvalMissing.BuildFinding(src, "k", false)
  {
    var g := SharedSink();
    assert g.Edges[0] in g.Edges && g.Edges[1] in g.Edges && [K][0] in [K];
    assert EvalMissing.SinkIDs([K]) == {"k"};
    assert (src, "k") in EvalMissing.Flow(g, src, [K]) && (src, "k") in EvalMissing.DirectFlow(g, src, [K]);
    Paths.ReachesEdge(EvalMissing.Flow(g, src, [K]), src, "k");
    Paths.ReachesEdge(EvalMissing.DirectFlow(g, src, [K]), src, "k");
  }

  lemma ListOfTwo<T>(x: seq<T>, f: T, h: T, i: nat, j: nat)
    requires i < j < |x| && x[i] == f && x[j] == h
    requires (forall y :: y in x ==> y == f || y == h) && forall m, n :: 0 <= m < n < |x| ==> x[m] != x[n]
    ensures x == [f, h]
  {
    assert x[i] != x[j] && f in x && h in x;
    forall y ensures multiset(x)[y] == multiset{f, h}[y] {
      OnceEach(x, y);
    }
    assert multiset(x) == multiset{f, h};
  }

  lemma FirstSourceFirst(p: Node, q: Node, x: seq<EvalMissing.EvalFinding>, i: nat, j: nat)
    requires EvalMissing.InSourceOrder([p, q], x) && i < |x| && j < |x| && p.ID != q.ID
    requires x[i].Message.source == p.ID && x[j].Message.source == q.ID
    ensures i < j
  {
    assert [p, q][0] == p && [p, q][1] == q;
  }

  lemma PairsFound(g: WorkflowGraph, p: Node, q: Node, sinks: seq<Node>, f: EvalMissing.EvalFinding,
                   h: EvalMissing.EvalFinding, x: seq<EvalMissing.EvalFinding>)
    requires f.Message.source == p.ID && h.Message.source == q.ID
    requires forall y :: EvalMissing.PairFinding(g, p.ID, sinks, y) <==> y == f
    requires forall y :: EvalMissing.PairFinding(g, q.ID, sinks, y) <==> y == h
    requires EvalMissing.Exact(g, [p, q], sinks, x)
    ensures f in x && h in x && forall y :: y in x ==> y == f || y == h
  {
    var sources := [p, q];
    assert sources[0] in sources && sources[1] in sources;
    assert EvalMissing.ExactFor(g, p.ID, sinks, x) && EvalMissing.ExactFor(g, q.ID, sinks, x);
    assert EvalMissing.PairFinding(g, p.ID, sinks, f) && EvalMissing.PairFinding(g, q.ID, sinks, h);
    forall y | y in x ensures y == f || y == h {
      assert EvalMissing.FromOneOf(sources, y);
    }
  }

  /** Where each of two sources is in one pair, the order of the sources decides the order of the findings. */
  lemma OnePairEach(g: WorkflowGraph, p: Node, q: Node, sinks: seq<Node>, f: EvalMissing.EvalFinding,
                    h: EvalMissing.EvalFinding, x: seq<EvalMissing.EvalFinding>)
    requires p.ID != q.ID && f.Message.source == p.ID && h.Message.source == q.ID
    requires forall y :: EvalMissing.PairFinding(g, p.ID, sinks, y) <==> y == f
    requires forall y :: EvalMissing.PairFinding(g, q.ID, sinks, y) <==> y == h
    requires EvalMissing.Exact(g, [p, q], sinks, x) && EvalMissing.InSourceOrder([p, q], x)
    ensures x == [f, h]
  {
    PairsFound(g, p, q, sinks, f, h, x);
    var i :| 0 <= i < |x| && x[i] == f;
    var j :| 0 <= j < |x| && x[j] == h;
    FirstSourceFirst(p, q, x, i, j);
    ListOfTwo(x, f, h, i, j);
  }

  lemma SameRankTies<M>(x: Finding<M>, y: Finding<M>)
    requires x.Severity == y.Severity && x.Confidence == y.Confidence && x.RuleName == y.RuleName
    requires x.SourceFile == y.SourceFile && x.NodeID == y.NodeID
    ensures FindingLe(x, y) && FindingLe(y, x)
  {
    StrLeTotal(x.NodeID, x.NodeID);
  }

  lemma SwappedTies<M(!new)>(templates: map<string, string>, f: Finding<M>, h: Finding<M>)
    requires Normalise(templates, f) != Normalise(templates, h)
    requires FindingLe(Normalise(templates, f), Normalise(templates, h))
    requires FindingLe(Normalise(templates, h), Normalise(templates, f))
    ensures !SameTies(templates, [f, h], [h, f])
  {
    var x, y := Normalise(templates, f), Normalise(templates, h);
    NormaliseTwo(templates, f, h);
    NormaliseTwo(templates, h, f);
    SameRankTies(x, x);
    TiesOfTwo(x, x, y);
    TiesOfTwo(x, y, x);
    assert [x, y][0] != [y, x][0];
  }

  /** Ranging over the node map in another order makes another report. */
  lemma SharedSinkIsReportedInMapOrder(templates: map<string, string>, x: seq<EvalMissing.EvalFinding>,
                                       y: seq<EvalMissing.EvalFinding>)
    requires EvalMissing.Exact(SharedSink(), [A, B], [K], x) && EvalMissing.InSourceOrder([A, B], x)
    requires EvalMissing.Exact(SharedSink(), [B, A], [K], y) && EvalMissing.InSourceOrder([B, A], y)
    ensures !SameTies(templates, x, y)
  {
    var f, h := EvalMissing.BuildFinding("a", "k", false), EvalMissing.BuildFinding("b", "k", false);
    forall z
      ensures EvalMissing.PairFinding(SharedSink(), "a", [K], z) <==> z == f
      ensures EvalMissing.PairFinding(SharedSink(), "b", [K], z) <==> z == h
    {
      SharedSinkPair("a", z);
      SharedSinkPair("b", z);
    }
    OnePairEach(SharedSink(), A, B, [K], f, h, x);
    OnePairEach(SharedSink(), B, A, [K], h, f, y);
    SameRankTies(Normalise(templates, f), Normalise(templates, h));
    SwappedTies(templates, f, h);
  }

  lemma NormaliseTwo<M>(templates: map<string, string>, f: Finding<M>, h: Finding<M>)
    ensures NormaliseAll(templates, [f, h]) == [Normalise(templates, f), Normalise(templates, h)]
  {
    NormaliseAt(templates, [f, h]);
  }

  lemma TiesOfTwo<M(!new)>(k: Finding<M>, x: Finding<M>, y: Finding<M>)
    requires FindingLe(k, x) && FindingLe(x, k) && FindingLe(k, y) && FindingLe(y, k)
    ensures Class(FindingLe<M>, k, [x, y]) == [x, y]
  {
    assert [y][1..] == [] && [x, y][1..] == [y];
    assert Class(FindingLe<M>, k, [y]) == [y];
  }
}
