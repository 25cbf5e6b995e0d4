/** Workflows on which the n8n parser falls short of its documentation. */
module N8nInputs {
  import opened Domain
  import opened Paths
  import opened Reachability
  import opened N8n
  import opened N8nEdges
  import opened N8nEntry

  const AGENT := "@n8n/n8n-nodes-langchain.agent"
  const MODEL := "@n8n/n8n-nodes-langchain.lmChat"
  const WEBHOOK := "n8n-nodes-base.webhook"

  /** What the parser's type tables say about these three types. */
  ghost predicate KnowsTypes(t: TypeTable) {
    && t.mapType(AGENT) == (LLM, "") && t.mapType(MODEL) == (LLM, "") && t.mapType(WEBHOOK) == (Tool, "trigger")
    && !t.sticky(AGENT) && !t.sticky(MODEL) && !t.sticky(WEBHOOK)
  }

  function Raw(name: string, kind: string): RawNode {
    RawNode("", name, kind, map[], false, [])
  }

  predicate OfKnownType(raw: RawNode) {
    raw.Name != "" && raw.Type in {AGENT, MODEL, WEBHOOK} && raw == Raw(raw.Name, raw.Type)
  }

  /** Nodes of these types under different names. */
  ghost predicate Simple(raws: seq<RawNode>) {
    DistinctWanted(raws) && forall raw :: raw in raws ==> OfKnownType(raw)
  }

  lemma {:induction false} AllKept(t: TypeTable, raws: seq<RawNode>)
    requires forall raw :: raw in raws ==> Kept(t, raw)
    ensures KeptNodes(t, raws) == raws
  {
    if raws != [] {
      assert raws[0] in raws;
      AllKept(t, raws[1..]);
    }
  }

  /** Names are identifiers, and triggers are the webhooks. */
  ghost predicate Entered(s: Tables, raw: RawNode) {
    && raw.Name in s.nodes && s.nodes[raw.Name].Type != Condition
    && raw.Name in s.nameToID && s.nameToID[raw.Name] == raw.Name
    && (IsTrigger(s.nodes, raw.Name) <==> raw.Type == WEBHOOK)
  }

  ghost predicate Tabled(raws: seq<RawNode>, s: Tables) {
    && (forall id :: id in s.nodes <==> id in s.order)
    && s.order == Wanted(raws)
    && forall raw :: raw in raws ==> Entered(s, raw)
  }

  lemma SimpleIsTabled(t: TypeTable, wf: Workflow, s: Tables, edges: seq<Edge>)
    requires KnowsTypes(t) && Simple(wf.Nodes) && Parsed(wf, t, s, edges)
    ensures Tabled(wf.Nodes, s)
  {
    AllKept(t, wf.Nodes);
    SimpleOrder(t, wf);
    forall raw | raw in wf.Nodes ensures Entered(s, raw) {
      SimpleIsEntered(t, wf, s, raw);
    }
  }

  lemma SimpleOrder(t: TypeTable, wf: Workflow)
    requires DistinctWanted(wf.Nodes) && KeptNodes(t, wf.Nodes) == wf.Nodes
    ensures IDs(t, wf) == Wanted(wf.Nodes)
  {
    DistinctNamesKeepTheirIDs(t, wf);
  }

  lemma SimpleIsEntered(t: TypeTable, wf: Workflow, s: Tables, raw: RawNode)
    requires KnowsTypes(t) && Simple(wf.Nodes) && raw in wf.Nodes && KeptNodes(t, wf.Nodes) == wf.Nodes
    requires s == RegisterAll(t, wf.Nodes, EMPTY_TABLES, map[]) && Known(s, raw)
    ensures Entered(s, raw)
  {
    assert OfKnownType(raw);
    ReferencesFindTheirNode(t, wf, raw);
    BuiltCategory(t, raw);
  }

  lemma BuiltCategory(t: TypeTable, raw: RawNode)
    requires KnowsTypes(t) && OfKnownType(raw)
    ensures GetToolCategory(BuildNode(raw.Name, raw, t)) == if raw.Type == WEBHOOK then "trigger" else ""
    ensures BuildNode(raw.Name, raw, t).Type != Condition
  {}

  lemma OneAiConnection(s: Tables, from: string, port: string, to: string, e: Edge)
    requires to in s.nameToID
    ensures AiConnection(s, from, port, [[to]], e) <==> e == Edge(from, s.nameToID[to], port)
  {
    var outputs := [[to]];
    assert outputs[0] == [to] && [to][0] == to;
    if e == Edge(from, s.nameToID[to], port) {
      assert AiTo(s, from, port, outputs[0], e);
    }
  }

  lemma OneMainConnection(s: Tables, from: string, to: string, e: Edge)
    requires to in s.nameToID && s.nameToID[to] != "" && !IsConditionNode(s, from)
    ensures MainConnection(s, from, [[to]], e) <==> e == Edge(from, s.nameToID[to], "")
  {
    var outputs := [[to]];
    assert outputs[0] == [to] && [to][0] == to && BranchCondition(false, 0) == "";
    if e == Edge(from, s.nameToID[to], "") {
      assert MainTo(s, from, BranchCondition(false, 0), outputs[0], e);
    }
  }

  /** A source with one ai_* connection and nothing else. */
  lemma OnlyAi(wf: Workflow, s: Tables, src: string, port: string, to: string, e: Edge)
    requires src in wf.Connections && wf.Connections[src] == map[port := [[to]]] && IsAiPort(port)
    requires src in s.nameToID && s.nameToID[src] == src != "" && to in s.nameToID && s.nameToID[to] == to
    ensures EdgeOf(wf, s, src, e) <==> e == Edge(src, to, port)
  {
    OneAiConnection(s, src, port, to, e);
    assert wf.Connections[src][port] == [[to]] && Outputs(wf.Connections[src], "main") == [];
  }

  /** A source with one main connection and nothing else. */
  lemma OnlyMain(wf: Workflow, s: Tables, src: string, to: string, e: Edge)
    requires src in wf.Connections && wf.Connections[src] == map["main" := [[to]]] && !IsConditionNode(s, src)
    requires src in s.nameToID && s.nameToID[src] == src != "" && to in s.nameToID && s.nameToID[to] == to != ""
    ensures EdgeOf(wf, s, src, e) <==> e == Edge(src, to, "")
  {
    OneMainConnection(s, src, to, e);
    assert Outputs(wf.Connections[src], "main") == [[to]];
  }

  /** The edges when one source has a single edge... */
  lemma OneSource(wf: Workflow, s: Tables, edges: seq<Edge>, a: string, x: Edge)
    requires IsEdgeList(wf, s, edges) && wf.Connections.Keys == {a}
    requires forall e :: EdgeOf(wf, s, a, e) <==> e == x
    ensures forall e :: e in edges <==> e == x
  {
    forall e ensures e in edges <==> e == x {
      EdgeListHolds(wf, s, edges, e);
      assert EdgeOf(wf, s, a, e) <==> e == x;
      assert forall src :: EdgeOf(wf, s, src, e) ==> src in wf.Connections.Keys;
    }
  }

  /** ...and when two sources have one each. */
  lemma TwoSources(wf: Workflow, s: Tables, edges: seq<Edge>, a: string, x: Edge, b: string, y: Edge)
    requires IsEdgeList(wf, s, edges) && wf.Connections.Keys == {a, b}
    requires forall e :: (EdgeOf(wf, s, a, e) <==> e == x) && (EdgeOf(wf, s, b, e) <==> e == y)
    ensures forall e :: e in edges <==> e == x || e == y
  {
    forall e ensures e in edges <==> e == x || e == y {
      EdgeListHolds(wf, s, edges, e);
      assert (EdgeOf(wf, s, a, e) <==> e == x) && (EdgeOf(wf, s, b, e) <==> e == y);
      assert forall src :: EdgeOf(wf, s, src, e) ==> src in wf.Connections.Keys;
    }
  }

  lemma NoRoots(nodes: map<string, Node>, edges: seq<Edge>, order: seq<string>)
    requires forall id :: id in order ==> !IsRoot(nodes, edges, id)
    ensures FilterRoots(nodes, edges, order) == []
  {
    FilterRootsAre(nodes, edges, order);
    assert forall r :: r !in FilterRoots(nodes, edges, order);
  }

  // ----- An agent listed before the model attached to it

  const AI_PORT := "ai_languageModel"

  function AttachedModel(): Workflow {
    Workflow([Raw("agent", AGENT), Raw("model", MODEL)], map["model" := map[AI_PORT := [["agent"]]]])
  }

  lemma AttachedModelTables(t: TypeTable, s: Tables, edges: seq<Edge>)
    requires KnowsTypes(t) && Parsed(AttachedModel(), t, s, edges)
    ensures Tabled(AttachedModel().Nodes, s) && IsEdgeList(AttachedModel(), s, edges)
  {
    SimpleIsTabled(t, AttachedModel(), s, edges);
  }

  lemma AttachedModelEdges(s: Tables, edges: seq<Edge>)
    requires Tabled(AttachedModel().Nodes, s) && IsEdgeList(AttachedModel(), s, edges)
    ensures s.order == ["agent", "model"] && !IsTrigger(s.nodes, "agent") && !IsTrigger(s.nodes, "model")
    ensures forall e :: e in edges <==> e == Edge("model", "agent", AI_PORT)
  {
    var wf := AttachedModel();
    assert wf.Nodes[0] in wf.Nodes && wf.Nodes[1] in wf.Nodes;
    forall e ensures EdgeOf(wf, s, "model", e) <==> e == Edge("model", "agent", AI_PORT) {
      OnlyAi(wf, s, "model", AI_PORT, "agent", e);
    }
    OneSource(wf, s, edges, "model", Edge("model", "agent", AI_PORT));
  }

  lemma AttachedModelEntry(nodes: map<string, Node>, edges: seq<Edge>, entry: string)
    requires !IsTrigger(nodes, "agent") && !IsTrigger(nodes, "model")
    requires forall e :: e in edges <==> e == Edge("model", "agent", AI_PORT)
    ensures FilterRoots(nodes, edges, ["agent", "model"]) == [] && DocPickedAt(nodes, ["agent", "model"], edges, 0)
    ensures Picked(nodes, ["agent", "model"], edges, entry) ==> entry == "model"
  {
    var order := ["agent", "model"];
    assert order[0] in order && order[1] in order;
    assert Edge("model", "agent", AI_PORT) in edges;
    assert AnyIn(edges, "agent") && !AnyIn(edges, "model") && !MainIn(edges, "agent") && !HasTrigger(nodes, order);
    assert forall id :: !MainOut(edges, id);
    NoRoots(nodes, edges, order);
  }

  /**
   * The documented entry is the agent, which has no incoming main edge; the model is taken, because of the ai_* edge.
   */
  lemma ModelIsTakenForEntry(t: TypeTable, s: Tables, edges: seq<Edge>, g: WorkflowGraph)
    requires KnowsTypes(t) && Parsed(AttachedModel(), t, s, edges) && Assembled(g, s.nodes, s.order, edges)
    ensures DocPickedAt(s.nodes, s.order, edges, 0) && s.order[0] == "agent" && g.EntryNodeID == "model"
  {
    AttachedModelTables(t, s, edges);
    AttachedModelEdges(s, edges);
    AttachedModelEntry(s.nodes, edges, g.EntryNodeID);
  }

  // ----- A model listed before the head of the only flow, to which it is attached

  function ModelFirst(): Workflow {
    Workflow([Raw("model", MODEL), Raw("head", AGENT), Raw("next", AGENT)],
             map["model" := map[AI_PORT := [["head"]]], "head" := map["main" := [["next"]]]])
  }

  lemma ModelFirstIsSimple()
    ensures Simple(ModelFirst().Nodes)
  {}

  lemma ModelFirstTables(t: TypeTable, s: Tables, edges: seq<Edge>)
    requires KnowsTypes(t) && Parsed(ModelFirst(), t, s, edges)
    ensures Tabled(ModelFirst().Nodes, s) && IsEdgeList(ModelFirst(), s, edges)
  {
    ModelFirstIsSimple();
    SimpleIsTabled(t, ModelFirst(), s, edges);
  }

  lemma ModelFirstNodes(s: Tables)
    requires Tabled(ModelFirst().Nodes, s)
    ensures s.order == ["model", "head", "next"] && "head" in s.nodes && !IsConditionNode(s, "head")
    ensures !IsTrigger(s.nodes, "model") && !IsTrigger(s.nodes, "head") && !IsTrigger(s.nodes, "next")
    ensures forall id :: id in {"model", "head", "next"} ==> id in s.nameToID && s.nameToID[id] == id
  {
    var raws := ModelFirst().Nodes;
    assert Entered(s, raws[0]) && Entered(s, raws[1]) && Entered(s, raws[2]);
    assert s.order == ["model", "head", "next"];
  }

  lemma ModelFirstEdges(s: Tables, edges: seq<Edge>)
    requires Tabled(ModelFirst().Nodes, s) && IsEdgeList(ModelFirst(), s, edges)
    ensures forall e :: e in edges <==> e == Edge("model", "head", AI_PORT) || e == Edge("head", "next", "")
  {
    var wf := ModelFirst();
    ModelFirstNodes(s);
    forall e
      ensures EdgeOf(wf, s, "model", e) <==> e == Edge("model", "head", AI_PORT)
      ensures EdgeOf(wf, s, "head", e) <==> e == Edge("head", "next", "")
    {
      OnlyAi(wf, s, "model", AI_PORT, "head", e);
      OnlyMain(wf, s, "head", "next", e);
    }
    TwoSources(wf, s, edges, "model", Edge("model", "head", AI_PORT), "head", Edge("head", "next", ""));
  }

  lemma ModelFirstEntry(nodes: map<string, Node>, edges: seq<Edge>, entry: string)
    requires "head" in nodes && !IsTrigger(nodes, "model") && !IsTrigger(nodes, "head") && !IsTrigger(nodes, "next")
    requires forall e :: e in edges <==> e == Edge("model", "head", AI_PORT) || e == Edge("head", "next", "")
    ensures FilterRoots(nodes, edges, ["model", "head", "next"]) == ["head"]
    ensures Picked(nodes, ["model", "head", "next"], edges, entry) ==> entry == "model"
  {
    var order := ["model", "head", "next"];
    assert order[0] in order && order[1] in order && order[2] in order;
    assert Edge("model", "head", AI_PORT) in edges && Edge("head", "next", "") in edges;
    assert !AnyIn(edges, "model") && !HasTrigger(nodes, order) && !MainOut(edges, "model") && !MainOut(edges, "next");
    assert IsRoot(nodes, edges, "head");
    NoRoots(nodes, edges, ["next"]);
    assert order[1..] == ["head", "next"] && ["head", "next"][1..] == ["next"];
    assert FilterRoots(nodes, edges, ["head", "next"]) == ["head"];
  }

  /** The head is the only root, and the model becomes the entry. */
  lemma OnlyRootIsPassedOver(t: TypeTable, s: Tables, edges: seq<Edge>, g: WorkflowGraph)
    requires KnowsTypes(t) && Parsed(ModelFirst(), t, s, edges) && Assembled(g, s.nodes, s.order, edges)
    ensures FilterRoots(s.nodes, edges, s.order) == ["head"] && g.EntryNodeID == "model"
  {
    ModelFirstTables(t, s, edges);
    ModelFirstNodes(s);
    ModelFirstEdges(s, edges);
    ModelFirstEntry(s.nodes, edges, g.EntryNodeID);
  }

  // ----- Two triggers, and a node of the reserved name in a loop of its own

  function ReservedName(): Workflow {
    Workflow([Raw("s", WEBHOOK), Raw("t", WEBHOOK), Raw(VIRTUAL_ROOT, AGENT), Raw("x", AGENT)],
             map[VIRTUAL_ROOT := map["main" := [["x"]]], "x" := map["main" := [[VIRTUAL_ROOT]]]])
  }

  const RESERVED_ORDER := ["s", "t", VIRTUAL_ROOT, "x"]

  lemma ReservedNamesDiffer()
    ensures Simple(ReservedName().Nodes)
  {
    assert |"s"| == |"t"| == |"x"| == 1 && |VIRTUAL_ROOT| > 1;
    assert "s"[0] == 's' && "t"[0] == 't' && "x"[0] == 'x';
  }

  lemma ReservedNameTables(t: TypeTable, s: Tables, edges: seq<Edge>)
    requires KnowsTypes(t) && Parsed(ReservedName(), t, s, edges)
    ensures Tabled(ReservedName().Nodes, s) && IsEdgeList(ReservedName(), s, edges)
  {
    ReservedNamesDiffer();
    SimpleIsTabled(t, ReservedName(), s, edges);
  }

  lemma ReservedNameOrder(s: Tables)
    requires Tabled(ReservedName().Nodes, s)
    ensures s.order == RESERVED_ORDER && forall id :: id in {"s", "t", VIRTUAL_ROOT, "x"} <==> id in s.nodes
  {
    assert s.order == RESERVED_ORDER;
    assert forall id :: id in RESERVED_ORDER <==> id in {"s", "t", VIRTUAL_ROOT, "x"};
  }

  lemma ReservedNameNodes(s: Tables)
    requires Tabled(ReservedName().Nodes, s)
    ensures !IsConditionNode(s, VIRTUAL_ROOT) && !IsConditionNode(s, "x")
    ensures IsTrigger(s.nodes, "s") && IsTrigger(s.nodes, "t") && !IsTrigger(s.nodes, VIRTUAL_ROOT)
    ensures !IsTrigger(s.nodes, "x")
    ensures forall id :: id in {VIRTUAL_ROOT, "x"} ==> id in s.nameToID && s.nameToID[id] == id
  {
    var raws := ReservedName().Nodes;
    assert Entered(s, raws[0]) && Entered(s, raws[1]) && Entered(s, raws[2]) && Entered(s, raws[3]);
  }

  ghost predicate ReservedEdges(edges: seq<Edge>) {
    forall e :: e in edges <==> e == Edge(VIRTUAL_ROOT, "x", "") || e == Edge("x", VIRTUAL_ROOT, "")
  }

  lemma ReservedNameEdges(s: Tables, edges: seq<Edge>)
    requires Tabled(ReservedName().Nodes, s) && IsEdgeList(ReservedName(), s, edges)
    ensures ReservedEdges(edges)
  {
    var wf := ReservedName();
    ReservedNameNodes(s);
    forall e
      ensures EdgeOf(wf, s, VIRTUAL_ROOT, e) <==> e == Edge(VIRTUAL_ROOT, "x", "")
      ensures EdgeOf(wf, s, "x", e) <==> e == Edge("x", VIRTUAL_ROOT, "")
    {
      OnlyMain(wf, s, VIRTUAL_ROOT, "x", e);
      OnlyMain(wf, s, "x", VIRTUAL_ROOT, e);
    }
    TwoSources(wf, s, edges, VIRTUAL_ROOT, Edge(VIRTUAL_ROOT, "x", ""), "x", Edge("x", VIRTUAL_ROOT, ""));
  }

  lemma ReservedNameRoots(nodes: map<string, Node>, edges: seq<Edge>)
    requires forall id :: id in {"s", "t", VIRTUAL_ROOT, "x"} <==> id in nodes
    requires IsTrigger(nodes, "s") && IsTrigger(nodes, "t") && !IsTrigger(nodes, VIRTUAL_ROOT) && !IsTrigger(nodes, "x")
    requires ReservedEdges(edges)
    ensures forall id :: IsRoot(nodes, edges, id) <==> id in {"s", "t"}
    ensures FilterRoots(nodes, edges, RESERVED_ORDER) == ["s", "t"]
  {
    assert Edge(VIRTUAL_ROOT, "x", "") in edges && Edge("x", VIRTUAL_ROOT, "") in edges;
    assert MainIn(edges, "x") && MainIn(edges, VIRTUAL_ROOT);
    NoRoots(nodes, edges, [VIRTUAL_ROOT, "x"]);
    assert RESERVED_ORDER[1..] == ["t", VIRTUAL_ROOT, "x"] && ["t", VIRTUAL_ROOT, "x"][1..] == [VIRTUAL_ROOT, "x"];
    assert FilterRoots(nodes, edges, ["t", VIRTUAL_ROOT, "x"]) == ["t"];
  }

  /** The edges lead from the virtual root to both triggers and, inherited, to x and back. */
  lemma ReservedNameSteps(g: WorkflowGraph, nodes: map<string, Node>, edges: seq<Edge>)
    requires forall id :: id in {"s", "t", VIRTUAL_ROOT, "x"} <==> id in nodes
    requires ReservedEdges(edges)
    requires g.Nodes == nodes[VIRTUAL_ROOT := VirtualNode()] && g.Edges == edges + RootEdges(["s", "t"])
    ensures (VIRTUAL_ROOT, "x") in Steps(g)
    ensures forall p :: p in Steps(g) ==> p.0 in {VIRTUAL_ROOT, "x"}
  {
    assert Edge(VIRTUAL_ROOT, "x", "") in edges && Edge(VIRTUAL_ROOT, "x", "") in g.Edges;
    assert forall e :: e in g.Edges ==> e in edges || e in RootEdges(["s", "t"]);
    assert forall e :: e in g.Edges ==> !IsAi(e) && e.From in {VIRTUAL_ROOT, "x"};
  }

  lemma ReservedNameReach(g: WorkflowGraph, nodes: map<string, Node>, edges: seq<Edge>)
    requires (VIRTUAL_ROOT, "x") in Steps(g) && forall p :: p in Steps(g) ==> p.0 in {VIRTUAL_ROOT, "x"}
    requires forall id :: IsRoot(nodes, edges, id) <==> id in {"s", "t"}
    ensures Reaches(Steps(g), VIRTUAL_ROOT, "x") && !FromSomeRoot(g, nodes, edges, "x")
  {
    ReachesEdge(Steps(g), VIRTUAL_ROOT, "x");
    forall r | IsRoot(nodes, edges, r) ensures !Reaches(Steps(g), r, "x") {
      LeadsNowhere(Steps(g), r, "x");
    }
  }

  /** No trigger leads to x, and x is visited all the same. */
  lemma ReservedNameIsVisited(t: TypeTable, s: Tables, edges: seq<Edge>, g: WorkflowGraph)
    requires KnowsTypes(t) && Parsed(ReservedName(), t, s, edges) && Assembled(g, s.nodes, s.order, edges)
    ensures Reaches(Steps(g), g.EntryNodeID, "x") && !FromSomeRoot(g, s.nodes, edges, "x")
  {
    ReservedNameTables(t, s, edges);
    ReservedNameOrder(s);
    ReservedNameNodes(s);
    ReservedNameEdges(s, edges);
    ReservedNameRoots(s.nodes, edges);
    ReservedNameSteps(g, s.nodes, edges);
    ReservedNameReach(g, s.nodes, edges);
  }

  lemma LeadsNowhere(links: set<(string, string)>, r: string, v: string)
    requires r != v && forall p :: p in links ==> p.0 != r
    ensures !Reaches(links, r, v)
  {
    assert Closed(links, {r});
    if Reaches(links, r, v) {
      ReachesStaysIn(links, {r}, r, v);
    }
  }
}
