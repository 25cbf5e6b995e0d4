/** The n8n parser, third pass: the choice or synthesis of an entry node, and what the reachability rule makes of it. */
module N8nEntry {
  import opened Domain
  import opened Ordering
  import opened Paths
  import opened Reachability
  import opened N8n
  import opened N8nEdges
  import opened N8nTables
  import opened N8nOrigins
  import opened Selection

  const VIRTUAL_ROOT := "__n8n_multi_trigger_root__"

  // ----- Roots and entry

  predicate IsMain(e: Edge) {
    !IsAi(e)
  }

  ghost predicate MainIn(edges: seq<Edge>, id: string) {
    exists e :: e in edges && IsMain(e) && e.To == id
  }

  ghost predicate MainOut(edges: seq<Edge>, id: string) {
    exists e :: e in edges && IsMain(e) && e.From == id
  }

  predicate IsTrigger(nodes: map<string, Node>, id: string) {
    id in nodes && GetToolCategory(nodes[id]) == "trigger"
  }

  /** A trigger, or the head of a main subgraph. */
  ghost predicate IsRoot(nodes: map<string, Node>, edges: seq<Edge>, id: string) {
    id in nodes && (IsTrigger(nodes, id) || (!MainIn(edges, id) && MainOut(edges, id)))
  }

  ghost function FilterRoots(nodes: map<string, Node>, edges: seq<Edge>, order: seq<string>): seq<string> {
    if order == [] then []
    else (if IsRoot(nodes, edges, order[0]) then [order[0]] else []) + FilterRoots(nodes, edges, order[1..])
  }

  lemma FilterRootsAre(nodes: map<string, Node>, edges: seq<Edge>, order: seq<string>)
    ensures forall id :: id in FilterRoots(nodes, edges, order) <==> id in order && IsRoot(nodes, edges, id)
  {}

  ghost function Rooted(nodes: map<string, Node>, edges: seq<Edge>): string -> bool {
    (id: string) => IsRoot(nodes, edges, id)
  }

  lemma {:induction false} FilterRootsSnoc(nodes: map<string, Node>, edges: seq<Edge>, order: seq<string>, id: string)
    ensures FilterRoots(nodes, edges, order + [id]) ==
              FilterRoots(nodes, edges, order) + if IsRoot(nodes, edges, id) then [id] else []
  {
    if order == [] {
      assert [] + [id] == [id] && [id][1..] == [];
    } else {
      FilterRootsSnoc(nodes, edges, order[1..], id);
      assert (order + [id])[1..] == order[1..] + [id];
    }
  }

  /** The roots in array order. */
  lemma FilterRootsSelect(nodes: map<string, Node>, edges: seq<Edge>, order: seq<string>)
    ensures Selects(order, Rooted(nodes, edges), FilterRoots(nodes, edges, order))
  {
    SelectsNothing(Rooted(nodes, edges));
    assert order[..0] == [];
    for n := 0 to |order|
      invariant Selects(order[..n], Rooted(nodes, edges), FilterRoots(nodes, edges, order[..n]))
    {
      FilterRootsSnoc(nodes, edges, order[..n], order[n]);
      assert order[..n + 1] == order[..n] + [order[n]];
      SelectsNext(order, n, Rooted(nodes, edges), FilterRoots(nodes, edges, order[..n]),
                  FilterRoots(nodes, edges, order[..n + 1]));
    }
    assert order[..|order|] == order;
    SelectsAll(order, Rooted(nodes, edges), FilterRoots(nodes, edges, order));
  }

  method CountMain(edges: seq<Edge>) returns (mainIn: map<string, nat>, mainOut: map<string, nat>)
    ensures forall id :: Count(mainIn, id) > 0 <==> MainIn(edges, id)
    ensures forall id :: Count(mainOut, id) > 0 <==> MainOut(edges, id)
  {
    mainIn, mainOut := map[], map[];
    for i := 0 to |edges|
      invariant forall id :: Count(mainIn, id) > 0 <==> MainIn(edges[..i], id)
      invariant forall id :: Count(mainOut, id) > 0 <==> MainOut(edges[..i], id)
    {
      var e := edges[i];
      ghost var ins, outs := mainIn, mainOut;
      if !IsAi(e) {
        mainOut := mainOut[e.From := Count(mainOut, e.From) + 1];
        mainIn := mainIn[e.To := Count(mainIn, e.To) + 1];
      }
      assert edges[..i + 1] == edges[..i] + [e];
      MainSnoc(edges[..i], e);
      assert forall id :: Count(ins, id) > 0 <==> MainIn(edges[..i], id);
      assert forall id :: Count(outs, id) > 0 <==> MainOut(edges[..i], id);
    }
    assert edges[..|edges|] == edges;
  }

  lemma MainSnoc(edges: seq<Edge>, e: Edge)
    ensures forall id :: MainIn(edges + [e], id) <==> MainIn(edges, id) || (IsMain(e) && e.To == id)
    ensures forall id :: MainOut(edges + [e], id) <==> MainOut(edges, id) || (IsMain(e) && e.From == id)
  {
    var all := edges + [e];
    assert e in all && forall x :: x in edges ==> x in all;
    forall id ensures MainIn(all, id) <==> MainIn(edges, id) || (IsMain(e) && e.To == id) {
      if x :| x in edges && IsMain(x) && x.To == id { assert x in all; }
    }
    forall id ensures MainOut(all, id) <==> MainOut(edges, id) || (IsMain(e) && e.From == id) {
      if x :| x in edges && IsMain(x) && x.From == id { assert x in all; }
    }
  }

  lemma FilterRootsFrom(nodes: map<string, Node>, edges: seq<Edge>, order: seq<string>, i: nat)
    requires i < |order|
    ensures FilterRoots(nodes, edges, order[i..])
         == if IsRoot(nodes, edges, order[i]) then [order[i]] + FilterRoots(nodes, edges, order[i + 1..])
            else FilterRoots(nodes, edges, order[i + 1..])
  {
    assert order[i..][1..] == order[i + 1..];
  }

  method EntryRootIDs(nodes: map<string, Node>, order: seq<string>, edges: seq<Edge>) returns (roots: seq<string>)
    ensures roots == FilterRoots(nodes, edges, order) && Selects(order, Rooted(nodes, edges), roots)
  {
    var mainIn, mainOut := CountMain(edges);
    roots := [];
    for i := 0 to |order|
      invariant FilterRoots(nodes, edges, order) == roots + FilterRoots(nodes, edges, order[i..])
    {
      FilterRootsFrom(nodes, edges, order, i);
      var id := order[i];
      assert (Count(mainIn, id) > 0 <==> MainIn(edges, id)) && (Count(mainOut, id) > 0 <==> MainOut(edges, id));
      if id in nodes
         && (GetToolCategory(nodes[id]) == "trigger" || (Count(mainIn, id) == 0 && Count(mainOut, id) > 0)) {
        Associative(roots, [id], FilterRoots(nodes, edges, order[i + 1..]));
        roots := roots + [id];
      }
    }
    FilterRootsSelect(nodes, edges, order);
  }

  ghost predicate AnyIn(edges: seq<Edge>, id: string) {
    exists e :: e in edges && e.To == id
  }

  ghost predicate HasTrigger(nodes: map<string, Node>, order: seq<string>) {
    exists id :: id in order && IsTrigger(nodes, id)
  }

  ghost predicate HasHead(edges: seq<Edge>, order: seq<string>) {
    exists id :: id in order && !AnyIn(edges, id)
  }

  ghost predicate PickedAt(nodes: map<string, Node>, order: seq<string>, edges: seq<Edge>, i: nat) {
    i < |order| &&
    if HasTrigger(nodes, order) then
      IsTrigger(nodes, order[i]) && forall j :: 0 <= j < i ==> !IsTrigger(nodes, order[j])
    else if HasHead(edges, order) then
      !AnyIn(edges, order[i]) && forall j :: 0 <= j < i ==> AnyIn(edges, order[j])
    else i == 0
  }

  /** The first trigger, else the first node without incoming edges of any kind, else the first node. */
  ghost predicate Picked(nodes: map<string, Node>, order: seq<string>, edges: seq<Edge>, entry: string) {
    if order == [] then entry == "" else exists i: nat :: PickedAt(nodes, order, edges, i) && entry == order[i]
  }

  ghost predicate HasMainHead(edges: seq<Edge>, order: seq<string>) {
    exists id :: id in order && !MainIn(edges, id)
  }

  /** The documented choice: as PickedAt, but step two looks for a node without incoming main edges. */
  ghost predicate DocPickedAt(nodes: map<string, Node>, order: seq<string>, edges: seq<Edge>, i: nat) {
    i < |order| &&
    if HasTrigger(nodes, order) then
      IsTrigger(nodes, order[i]) && forall j :: 0 <= j < i ==> !IsTrigger(nodes, order[j])
    else if HasMainHead(edges, order) then
      !MainIn(edges, order[i]) && forall j :: 0 <= j < i ==> MainIn(edges, order[j])
    else i == 0
  }

  /**
   * The entry is the documented one exactly when a trigger decides, or no node is a main head, or the documented node
   * has no incoming edge of any kind, or it is the first node and every node has an incoming edge.
   */
  lemma DocumentedEntryIff(nodes: map<string, Node>, order: seq<string>, edges: seq<Edge>, entry: string, d: nat)
    requires Picked(nodes, order, edges, entry) && DocPickedAt(nodes, order, edges, d)
    ensures entry == order[d] <==>
            HasTrigger(nodes, order) || MainIn(edges, order[d]) || !AnyIn(edges, order[d])
            || (d == 0 && !HasHead(edges, order))
  {
    var c: nat :| PickedAt(nodes, order, edges, c) && entry == order[c];
    assert order[c] in order && order[d] in order;
    forall id | MainIn(edges, id) ensures AnyIn(edges, id) {
      var e :| e in edges && IsMain(e) && e.To == id;
    }
    if HasTrigger(nodes, order) {
      assert c == d;
    } else if !AnyIn(edges, order[d]) {
      assert HasHead(edges, order) && c == d;
    }
  }

  method PickEntryNode(nodes: map<string, Node>, order: seq<string>, edges: seq<Edge>) returns (entry: string)
    ensures Picked(nodes, order, edges, entry)
  {
    if |order| == 0 {
      return "";
    }
    for i := 0 to |order|
      invariant forall j :: 0 <= j < i ==> !IsTrigger(nodes, order[j])
    {
      if order[i] in nodes && GetToolCategory(nodes[order[i]]) == "trigger" {
        assert order[i] in order && HasTrigger(nodes, order);
        assert PickedAt(nodes, order, edges, i);
        return order[i];
      }
    }
    var hasIncoming := set e | e in edges :: e.To;
    assert forall id :: id in hasIncoming <==> AnyIn(edges, id);
    assert !HasTrigger(nodes, order);
    for i := 0 to |order|
      invariant forall j :: 0 <= j < i ==> AnyIn(edges, order[j])
    {
      if order[i] !in hasIncoming {
        assert order[i] in order && HasHead(edges, order);
        assert PickedAt(nodes, order, edges, i);
        return order[i];
      }
    }
    assert PickedAt(nodes, order, edges, 0);
    return order[0];
  }

  // ----- The whole parse

  function VirtualNode(): Node {
    Node(VIRTUAL_ROOT, "(virtual multi-root entry)", Tool,
         map["category" := Str("trigger"), "virtual" := Bool(true)], None, "trigger", SourcePos("", 0), false)
  }

  function RootEdges(roots: seq<string>): seq<Edge> {
    seq(|roots|, i requires 0 <= i < |roots| => Edge(VIRTUAL_ROOT, roots[i], ""))
  }

  ghost predicate EndpointsExist(g: WorkflowGraph) {
    forall e :: e in g.Edges ==> e.From in g.Nodes && e.To in g.Nodes
  }

  /** `nodes` and `edges` are what the first two passes produce. */
  ghost predicate Assembled(g: WorkflowGraph, nodes: map<string, Node>, order: seq<string>, edges: seq<Edge>) {
    var roots := FilterRoots(nodes, edges, order);
    if |roots| >= 2 then
      g == WorkflowGraph(nodes[VIRTUAL_ROOT := VirtualNode()], edges + RootEdges(roots), VIRTUAL_ROOT, false)
    else
      g.Nodes == nodes && g.Edges == edges && !g.EntryAmbiguous && Picked(nodes, order, edges, g.EntryNodeID)
  }

  ghost predicate Parsed(wf: Workflow, t: TypeTable, s: Tables, edges: seq<Edge>) {
    && s == RegisterAll(t, wf.Nodes, EMPTY_TABLES, map[])
    && Consistent(s) && s.order == IDs(t, wf)
    && (forall raw :: raw in wf.Nodes && Kept(t, raw) ==> Known(s, raw))
    && IsEdgeList(wf, s, edges)
  }

  /** The graph may be the result of parsing the workflow, for some order in which maps are ranged over. */
  ghost predicate ParsesTo(wf: Workflow, t: TypeTable, g: WorkflowGraph) {
    exists s: Tables, edges: seq<Edge> :: Parsed(wf, t, s, edges) && Assembled(g, s.nodes, s.order, edges)
  }

  /** The tables of the enabled nodes, and the edges of all connections. */
  ghost predicate Reads(wf: Workflow, t: TypeTable, s: Tables, edges: seq<Edge>) {
    && (exists kept :: Selects(wf.Nodes, Enabled(t), kept) && TablesHold(t, kept, s))
    && exists os :: AnyConnection(wf, s, os, edges)
  }

  /** The synthetic root, or a node built from an enabled n8n node that is no sticky note. */
  ghost predicate Stems(wf: Workflow, t: TypeTable, id: string, n: Node) {
    || (id == VIRTUAL_ROOT && n == VirtualNode())
    || exists raw :: raw in wf.Nodes && !raw.Disabled && !t.sticky(raw.Type) && BuiltFrom(t, id, raw, n)
  }

  lemma ParsedReads(wf: Workflow, t: TypeTable, s: Tables, edges: seq<Edge>)
    requires Parsed(wf, t, s, edges)
    ensures Reads(wf, t, s, edges)
  {
    KeptAreEnabled(t, wf.Nodes);
    TablesOf(t, wf);
    EdgesStemFromConnections(wf, s, edges);
  }

  lemma AssembledStems(wf: Workflow, t: TypeTable, s: Tables, edges: seq<Edge>, g: WorkflowGraph)
    requires Parsed(wf, t, s, edges) && Assembled(g, s.nodes, s.order, edges)
    ensures forall id :: id in g.Nodes ==> Stems(wf, t, id, g.Nodes[id])
  {
    forall id | id in g.Nodes ensures Stems(wf, t, id, g.Nodes[id]) {
      if id in s.nodes && g.Nodes[id] == s.nodes[id] {
        NodesStem(t, wf, id);
      }
    }
  }

  method Parse(wf: Workflow, t: TypeTable) returns (g: WorkflowGraph)
    ensures ParsesTo(wf, t, g)
    ensures exists s: Tables, edges: seq<Edge> :: Reads(wf, t, s, edges) && Assembled(g, s.nodes, s.order, edges)
    ensures forall id :: id in g.Nodes ==> Stems(wf, t, id, g.Nodes[id])
    ensures g.Keyed() && EndpointsExist(g)
  {
    var s := BuildNodes(wf, t);
    RegisterAllKeeps(t, wf.Nodes, EMPTY_TABLES, map[]);
    RegisterAllOrder(t, wf.Nodes, EMPTY_TABLES, map[]);
    assert EMPTY_TABLES.nodes.Keys == {};
    var edges := ResolveEdges(wf, s);
    assert Parsed(wf, t, s, edges);
    g := Assemble(s, edges);
    ParsedReads(wf, t, s, edges);
    AssembledStems(wf, t, s, edges, g);
    ParsedIsWellFormed(wf, t, g, s, edges);
  }

  lemma ParsedIsWellFormed(wf: Workflow, t: TypeTable, g: WorkflowGraph, s: Tables, edges: seq<Edge>)
    requires Parsed(wf, t, s, edges) && Assembled(g, s.nodes, s.order, edges)
    ensures g.Keyed() && EndpointsExist(g)
  {
    forall e | e in edges ensures e.From in s.nodes && e.To in s.nodes {
      EdgeListHolds(wf, s, edges, e);
      var src :| EdgeOf(wf, s, src, e);
      EdgesJoinNodes(wf, s, src, e);
    }
    AssembledIsWellFormed(g, s, edges);
  }

  /** Every edge endpoint is a node, for every workflow: unresolvable references were dropped. */
  lemma AssembledIsWellFormed(g: WorkflowGraph, s: Tables, edges: seq<Edge>)
    requires Consistent(s) && Assembled(g, s.nodes, s.order, edges)
    requires forall e :: e in edges ==> e.From in s.nodes && e.To in s.nodes
    ensures g.Keyed() && EndpointsExist(g)
  {
    var roots := FilterRoots(s.nodes, edges, s.order);
    FilterRootsAre(s.nodes, edges, s.order);
    forall i | 0 <= i < |roots| ensures roots[i] in s.nodes {
      assert roots[i] in roots;
    }
  }

  method AddRootEdges(edges: seq<Edge>, rootIDs: seq<string>) returns (all: seq<Edge>)
    ensures all == edges + RootEdges(rootIDs)
  {
    all := edges;
    for i := 0 to |rootIDs|
      invariant all == edges + RootEdges(rootIDs)[..i]
    {
      all := all + [Edge(VIRTUAL_ROOT, rootIDs[i], "")];
    }
    assert RootEdges(rootIDs)[..|rootIDs|] == RootEdges(rootIDs);
  }

  method Assemble(s: Tables, edges: seq<Edge>) returns (g: WorkflowGraph)
    ensures Assembled(g, s.nodes, s.order, edges)
  {
    var rootIDs := EntryRootIDs(s.nodes, s.order, edges);
    if |rootIDs| >= 2 {
      var all := AddRootEdges(edges, rootIDs);
      g := WorkflowGraph(s.nodes[VIRTUAL_ROOT := VirtualNode()], all, VIRTUAL_ROOT, false);
    } else {
      var entry := PickEntryNode(s.nodes, s.order, edges);
      g := WorkflowGraph(s.nodes, edges, entry, false);
    }
  }

  // ----- Entry synthesis together with the reachability rule

  ghost function MainLinks(edges: seq<Edge>): set<(string, string)> {
    set e | e in edges && IsMain(e) :: (e.From, e.To)
  }

  /**
   * An assembled graph with two or more roots. A workflow node may
   * bear the reserved identifier and is then overwritten.
   */
  ghost predicate MultiRooted(g: WorkflowGraph, nodes: map<string, Node>, order: seq<string>, edges: seq<Edge>) {
    && Assembled(g, nodes, order, edges) && |FilterRoots(nodes, edges, order)| >= 2
    && (forall k :: k in nodes <==> k in order)
    && (forall e :: e in edges ==> e.From in nodes && e.To in nodes)
  }

  /** A step the overwritten node of the reserved name had of its own. */
  ghost predicate InheritedStep(g: WorkflowGraph, edges: seq<Edge>, v: string) {
    (VIRTUAL_ROOT, v) in Steps(g.(Edges := edges))
  }

  lemma StepsOfMultiRooted(g: WorkflowGraph, nodes: map<string, Node>, order: seq<string>, edges: seq<Edge>)
    requires MultiRooted(g, nodes, order, edges)
    ensures forall r :: IsRoot(nodes, edges, r) ==> (VIRTUAL_ROOT, r) in Steps(g)
    ensures forall p :: p in Steps(g) && p.0 == VIRTUAL_ROOT ==>
              IsRoot(nodes, edges, p.1) || InheritedStep(g, edges, p.1)
    ensures Steps(g.(Edges := edges)) <= Steps(g)
    ensures MainLinks(edges) <= Steps(g)
  {
    var roots := FilterRoots(nodes, edges, order);
    FilterRootsAre(nodes, edges, order);
    forall r | IsRoot(nodes, edges, r) ensures (VIRTUAL_ROOT, r) in Steps(g) {
      var i :| 0 <= i < |roots| && roots[i] == r;
      assert RootEdges(roots)[i] == Edge(VIRTUAL_ROOT, r, "");
      assert Edge(VIRTUAL_ROOT, r, "") in g.Edges;
    }
    forall e | e in g.Edges && e !in edges
      ensures e.From == VIRTUAL_ROOT && !IsAi(e) && IsRoot(nodes, edges, e.To)
    {
      assert e in RootEdges(roots);
    }
  }

  /**
   * From the virtual root the search visits that root and the union of what each root reaches. Nothing else, unless a
   * workflow node bears the reserved name: then also what that node led to.
   */
  lemma VirtualRootReachesUnion(g: WorkflowGraph, nodes: map<string, Node>, order: seq<string>, edges: seq<Edge>,
                                v: string)
    requires MultiRooted(g, nodes, order, edges)
    ensures Reaches(Steps(g), VIRTUAL_ROOT, v) <==>
            v == VIRTUAL_ROOT
            || exists r :: (IsRoot(nodes, edges, r) || InheritedStep(g, edges, r)) && Reaches(Steps(g), r, v)
    ensures VIRTUAL_ROOT !in nodes ==> forall r :: !InheritedStep(g, edges, r)
  {
    StepsOfMultiRooted(g, nodes, order, edges);
    if r :| (IsRoot(nodes, edges, r) || InheritedStep(g, edges, r)) && Reaches(Steps(g), r, v) {
      ReachesEdge(Steps(g), VIRTUAL_ROOT, r);
      ReachesTrans(Steps(g), VIRTUAL_ROOT, r, v);
    }
    ReachesSelf(Steps(g), VIRTUAL_ROOT);
    if Reaches(Steps(g), VIRTUAL_ROOT, v) && v != VIRTUAL_ROOT {
      var w :| WalkFromTo(Steps(g), w, VIRTUAL_ROOT, v);
      assert (w[0], w[0 + 1]) in Steps(g);
      WalkSegment(Steps(g), w, 1, |w| - 1);
      assert IsRoot(nodes, edges, w[1]) || InheritedStep(g, edges, w[1]);
    }
  }

  ghost predicate FromSomeRoot(g: WorkflowGraph, nodes: map<string, Node>, edges: seq<Edge>, v: string) {
    v == VIRTUAL_ROOT || exists r :: IsRoot(nodes, edges, r) && Reaches(Steps(g), r, v)
  }

  /**
   * The search visits exactly the union of what the roots reach unless the overwritten node led to something beyond it.
   */
  lemma UnionIsExactIff(g: WorkflowGraph, nodes: map<string, Node>, order: seq<string>, edges: seq<Edge>)
    requires MultiRooted(g, nodes, order, edges)
    ensures (forall v :: Reaches(Steps(g), VIRTUAL_ROOT, v) <==> FromSomeRoot(g, nodes, edges, v)) <==>
            (forall v :: InheritedStep(g, edges, v) ==> FromSomeRoot(g, nodes, edges, v))
  {
    forall v ensures FromSomeRoot(g, nodes, edges, v) ==> Reaches(Steps(g), VIRTUAL_ROOT, v) {
      VirtualRootReachesUnion(g, nodes, order, edges, v);
    }
    forall v | InheritedStep(g, edges, v) ensures Reaches(Steps(g), VIRTUAL_ROOT, v) {
      StepsOfMultiRooted(g, nodes, order, edges);
      ReachesEdge(Steps(g), VIRTUAL_ROOT, v);
    }
    if forall v :: InheritedStep(g, edges, v) ==> FromSomeRoot(g, nodes, edges, v) {
      forall v | Reaches(Steps(g), VIRTUAL_ROOT, v) ensures FromSomeRoot(g, nodes, edges, v) {
        OnlyRootsMatter(g, nodes, order, edges, v);
      }
    }
  }

  /**
   * If the overwritten node leads only to what roots reach, and to itself, the last step off the virtual root on a walk
   * is one to a root.
   */
  lemma OnlyRootsMatter(g: WorkflowGraph, nodes: map<string, Node>, order: seq<string>, edges: seq<Edge>, v: string)
    requires MultiRooted(g, nodes, order, edges) && Reaches(Steps(g), VIRTUAL_ROOT, v)
    requires forall x :: InheritedStep(g, edges, x) ==> FromSomeRoot(g, nodes, edges, x)
    ensures FromSomeRoot(g, nodes, edges, v)
  {
    StepsOfMultiRooted(g, nodes, order, edges);
    var w :| WalkFromTo(Steps(g), w, VIRTUAL_ROOT, v);
    var u := SimpleWalk(Steps(g), w);
    if |u| > 1 {
      assert (u[0], u[0 + 1]) in Steps(g);
      WalkSegment(Steps(g), u, 1, |u| - 1);
      if !IsRoot(nodes, edges, u[1]) {
        assert FromSomeRoot(g, nodes, edges, u[1]) && u[1] != VIRTUAL_ROOT;
        var r :| IsRoot(nodes, edges, r) && Reaches(Steps(g), r, u[1]);
        ReachesTrans(Steps(g), r, u[1], v);
      }
    }
  }

  /** If the main edges are acyclic, every node on a main edge is visited, so unreachable_node stays silent about it. */
  lemma MainNodesAreVisited(g: WorkflowGraph, nodes: map<string, Node>, order: seq<string>, edges: seq<Edge>, v: string)
    requires MultiRooted(g, nodes, order, edges) && Acyclic(MainLinks(edges))
    requires MainIn(edges, v) || MainOut(edges, v)
    ensures Reaches(Steps(g), g.EntryNodeID, v)
  {
    var r := MainLinks(edges);
    StepsOfMultiRooted(g, nodes, order, edges);
    var head := AcyclicHasSource(r, v);
    forall e | e in edges && IsMain(e) ensures e.To != head {
      assert (e.From, e.To) in r;
    }
    if head != v {
      var w :| WalkFromTo(r, w, head, v);
      assert (w[0], w[0 + 1]) in r;
      assert MainOut(edges, head);
    }
    var out :| out in edges && IsMain(out) && out.From == head;
    assert IsRoot(nodes, edges, head);
    ReachesMonotone(r, Steps(g), head, v);
    ReachesEdge(Steps(g), VIRTUAL_ROOT, head);
    ReachesTrans(Steps(g), VIRTUAL_ROOT, head, v);
  }

  /** Whatever workflow the parser is given, its graph is such a one whenever it has two roots. */
  lemma ParsedIsMultiRooted(wf: Workflow, t: TypeTable, s: Tables, edges: seq<Edge>, g: WorkflowGraph)
    requires Parsed(wf, t, s, edges) && Assembled(g, s.nodes, s.order, edges)
    requires |FilterRoots(s.nodes, edges, s.order)| >= 2
    ensures MultiRooted(g, s.nodes, s.order, edges)
  {
    forall e | e in edges ensures e.From in s.nodes && e.To in s.nodes {
      EdgeListHolds(wf, s, edges, e);
      var src :| EdgeOf(wf, s, src, e);
      EdgesJoinNodes(wf, s, src, e);
    }
  }

  /**
   * With exactly one root r the entry is r precisely when r is a trigger, or r has no incoming edge at all and no
   * earlier node lacks one; a sub-resource listed first can therefore be chosen over the head of the flow.
   */
  lemma SingleRootIsEntryIff(g: WorkflowGraph, nodes: map<string, Node>, order: seq<string>, edges: seq<Edge>, k: nat)
    requires Assembled(g, nodes, order, edges) && Distinct(order) && k < |order|
    requires FilterRoots(nodes, edges, order) == [order[k]]
    ensures g.EntryNodeID == order[k] <==>
            IsTrigger(nodes, order[k])
            || (!AnyIn(edges, order[k]) && forall j :: 0 <= j < k ==> AnyIn(edges, order[j]))
            || (k == 0 && forall j :: 0 <= j < |order| ==> AnyIn(edges, order[j]))
  {
    FilterRootsAre(nodes, edges, order);
    forall j | 0 <= j < |order| && IsTrigger(nodes, order[j]) ensures j == k {
      assert order[j] in order && IsRoot(nodes, edges, order[j]);
      assert order[j] in [order[k]];
    }
  }
}
