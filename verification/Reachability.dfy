/** unreachable_node: breadth-first search over the edges and, backwards, over the ai_* sub-resource edges. */
module Reachability {
  import opened Domain
  import opened Paths

  const RULE := "unreachable_node"

  datatype ReachMessage = EntryUnset | EntryMissing(entry: string) | Unreachable(node: string, entry: string)

  type ReachFinding = Finding<ReachMessage>

  predicate IsAi(e: Edge) {
    "ai_" <= e.Condition
  }

  // ----- Declarative vocabulary

  /** One step of the search: along an edge to an existing node, or against an ai_* edge to an existing node. */
  ghost function Steps(g: WorkflowGraph): set<(string, string)> {
    (set e | e in g.Edges && e.To in g.Nodes :: (e.From, e.To))
    + (set e | e in g.Edges && IsAi(e) && e.From in g.Nodes :: (e.To, e.From))
  }

  ghost predicate Reported(findings: seq<ReachFinding>, v: string) {
    exists f :: f in findings && f.NodeID == v
  }

  ghost predicate OncePerNode(findings: seq<ReachFinding>) {
    forall i, j :: 0 <= i < j < |findings| ==> findings[i].NodeID != findings[j].NodeID
  }

  function UnreachableFinding(g: WorkflowGraph, v: string): ReachFinding
    requires v in g.Nodes
  {
    NewFinding(RULE, if g.Nodes[v].Type in {LLM, Tool} then Warning else Info, v, Unreachable(v, g.EntryNodeID), 1.0)
  }

  // ----- The search

  function Lookup(m: map<string, seq<string>>, v: string): seq<string> {
    if v in m then m[v] else []
  }

  ghost predicate AiEdge(edges: seq<Edge>, from: string, to: string) {
    exists e :: e in edges && IsAi(e) && e.From == from && e.To == to
  }

  /** Sources of ai_* edges by target, for the nodes in `from`. */
  ghost predicate IsAiReverse(aiReverse: map<string, seq<string>>, edges: seq<Edge>, from: set<string>) {
    forall u, v :: v in Lookup(aiReverse, u) <==> v in from && AiEdge(edges, v, u)
  }

  method BuildAiReverse(g: WorkflowGraph) returns (aiReverse: map<string, seq<string>>)
    ensures IsAiReverse(aiReverse, g.Edges, g.Nodes.Keys)
  {
    aiReverse := map[];
    var rest := g.Nodes.Keys;
    while rest != {}
      invariant rest <= g.Nodes.Keys && IsAiReverse(aiReverse, g.Edges, g.Nodes.Keys - rest)
      decreases rest
    {
      var id :| id in rest;
      aiReverse := AddAiEdges(g, aiReverse, id, g.Nodes.Keys - rest);
      rest := rest - {id};
      assert g.Nodes.Keys - rest == (g.Nodes.Keys - (rest + {id})) + {id};
    }
    assert g.Nodes.Keys - rest == g.Nodes.Keys;
  }

  method AddAiEdges(g: WorkflowGraph, aiReverse0: map<string, seq<string>>, id: string, ghost seen: set<string>)
    returns (aiReverse: map<string, seq<string>>)
    requires IsAiReverse(aiReverse0, g.Edges, seen) && id !in seen
    ensures IsAiReverse(aiReverse, g.Edges, seen + {id})
  {
    aiReverse := aiReverse0;
    var out := OutgoingEdges(g.Edges, id);
    OutgoingEdgesAre(g.Edges, id);
    for i := 0 to |out|
      invariant forall u, v :: v in Lookup(aiReverse, u) <==>
                  v in Lookup(aiReverse0, u) || (v == id && AiEdge(out[..i], id, u))
    {
      var e := out[i];
      ghost var was := aiReverse;
      assert out[..i + 1] == out[..i] + [e];
      if IsAi(e) {
        aiReverse := aiReverse[e.To := Lookup(aiReverse, e.To) + [e.From]];
      }
      assert e in out;
      AiEdgeSnoc(out[..i], e, id);
    }
    assert out[..|out|] == out;
    AiEdgesOut(g.Edges, out, id);
  }

  lemma AiEdgesOut(edges: seq<Edge>, out: seq<Edge>, id: string)
    requires forall e :: e in out <==> e in edges && e.From == id
    ensures forall u :: AiEdge(out, id, u) <==> AiEdge(edges, id, u)
  {}

  lemma AiEdgeSnoc(edges: seq<Edge>, e: Edge, from: string)
    ensures forall to :: AiEdge(edges + [e], from, to) <==>
              AiEdge(edges, from, to) || (IsAi(e) && e.From == from && e.To == to)
  {
    forall to
      ensures AiEdge(edges + [e], from, to) <==> AiEdge(edges, from, to) || (IsAi(e) && e.From == from && e.To == to)
    {
      if x :| x in edges && IsAi(x) && x.From == from && x.To == to {
        assert x in edges + [e];
      }
      assert e in edges + [e];
    }
  }

  ghost predicate Progress(g: WorkflowGraph, visited: set<string>, done: set<string>, queue: seq<string>) {
    && Explores(Steps(g), g.EntryNodeID, visited, done)
    && visited == done + (set v | v in queue)
    && visited <= g.Nodes.Keys
  }

  /** The `visit` closure over a list of candidate nodes. */
  method VisitAll(g: WorkflowGraph, targets: seq<string>, visited0: set<string>, ghost done: set<string>,
                  queue0: seq<string>, ghost current: string)
    returns (visited: set<string>, queue: seq<string>)
    requires Progress(g, visited0, done, [current] + queue0)
    requires forall t :: t in targets && t in g.Nodes ==> (current, t) in Steps(g)
    ensures Progress(g, visited, done, [current] + queue)
    ensures visited0 <= visited && (visited0 == visited ==> queue == queue0)
    ensures forall t :: t in targets && t in g.Nodes ==> t in visited
  {
    visited, queue := visited0, queue0;
    for i := 0 to |targets|
      invariant Progress(g, visited, done, [current] + queue)
      invariant visited0 <= visited && (visited0 == visited ==> queue == queue0)
      invariant forall j :: 0 <= j < i && targets[j] in g.Nodes ==> targets[j] in visited
    {
      var target := targets[i];
      if target !in visited && target in g.Nodes {
        assert target in targets;
        assert current in [current] + queue;
        ExploreStep(Steps(g), g.EntryNodeID, visited, done, current, target);
        visited := visited + {target};
        queue := queue + [target];
      }
    }
  }

  lemma VisitDone(g: WorkflowGraph, visited: set<string>, done: set<string>, queue: seq<string>, current: string)
    requires Progress(g, visited, done, [current] + queue)
    requires forall e :: e in g.Edges && e.From == current && e.To in g.Nodes ==> e.To in visited
    requires forall v :: AiEdge(g.Edges, v, current) && v in g.Nodes ==> v in visited
    ensures Progress(g, visited, done + {current}, queue)
  {
    assert current in [current] + queue;
    forall p | p in Steps(g) && p.0 == current ensures p.1 in visited {
      if e :| e in g.Edges && e.To in g.Nodes && p == (e.From, e.To) {
      } else {
        assert AiEdge(g.Edges, p.1, current);
      }
    }
  }

  function Targets(es: seq<Edge>): (r: seq<string>)
    ensures |r| == |es| && forall i :: 0 <= i < |es| ==> r[i] == es[i].To
  {
    seq(|es|, i requires 0 <= i < |es| => es[i].To)
  }

  method Search(g: WorkflowGraph) returns (visited: set<string>)
    requires g.EntryNodeID in g.Nodes
    ensures visited <= g.Nodes.Keys
    ensures forall v :: v in visited <==> Reaches(Steps(g), g.EntryNodeID, v)
  {
    var aiReverse := BuildAiReverse(g);
    visited := {g.EntryNodeID};
    var queue := [g.EntryNodeID];
    ghost var done: set<string> := {};
    ExploresStart(Steps(g), g.EntryNodeID);
    while queue != []
      invariant Progress(g, visited, done, queue)
      decreases g.Nodes.Keys - visited, |queue|
    {
      var current := queue[0];
      queue := queue[1..];
      assert Progress(g, visited, done, [current] + queue);
      var out := OutgoingEdges(g.Edges, current);
      OutgoingEdgesAre(g.Edges, current);
      TargetsStep(g, current, Targets(out), Lookup(aiReverse, current));
      visited, queue := VisitAll(g, Targets(out), visited, done, queue, current);
      visited, queue := VisitAll(g, Lookup(aiReverse, current), visited, done, queue, current);
      assert forall e :: e in g.Edges && e.From == current && e.To in g.Nodes ==> e.To in Targets(out);
      VisitDone(g, visited, done, queue, current);
      done := done + {current};
    }
    ExploredAll(Steps(g), g.EntryNodeID, visited);
  }

  lemma TargetsStep(g: WorkflowGraph, current: string, targets: seq<string>, back: seq<string>)
    requires targets == Targets(OutgoingEdges(g.Edges, current))
    requires forall v :: v in back <==> v in g.Nodes && AiEdge(g.Edges, v, current)
    ensures forall t :: t in targets && t in g.Nodes ==> (current, t) in Steps(g)
    ensures forall t :: t in back ==> (current, t) in Steps(g)
    ensures forall e :: e in g.Edges && e.From == current ==> e.To in targets
  {
    var out := OutgoingEdges(g.Edges, current);
    OutgoingEdgesAre(g.Edges, current);
    forall t | t in targets && t in g.Nodes ensures (current, t) in Steps(g) {
      var i :| 0 <= i < |targets| && targets[i] == t;
      assert out[i] in out;
    }
    forall e | e in g.Edges && e.From == current ensures e.To in targets {
      var i :| 0 <= i < |out| && out[i] == e;
      assert targets[i] == e.To;
    }
  }

  /** Ranging over the node map: any order. */
  method ReportUnvisited(g: WorkflowGraph, visited: set<string>) returns (findings: seq<ReachFinding>)
    ensures forall v :: Reported(findings, v) <==> v in g.Nodes && v !in visited
    ensures OncePerNode(findings)
    ensures forall f :: f in findings ==> f.NodeID in g.Nodes && f == UnreachableFinding(g, f.NodeID)
  {
    findings := [];
    var rest := g.Nodes.Keys;
    while rest != {}
      invariant rest <= g.Nodes.Keys
      invariant forall v :: Reported(findings, v) <==> v in g.Nodes.Keys - rest && v !in visited
      invariant OncePerNode(findings)
      invariant forall f :: f in findings ==> f.NodeID in g.Nodes && f == UnreachableFinding(g, f.NodeID)
      decreases rest
    {
      var id :| id in rest;
      rest := rest - {id};
      if id !in visited {
        var f := UnreachableFinding(g, id);
        assert !Reported(findings, id);
        assert forall x :: x in findings + [f] <==> x in findings || x == f;
        findings := findings + [f];
        assert f in findings;
      }
    }
  }

  /**
   * The entry cases; with an entry, exactly the nodes outside the least set that holds it and is closed under Steps,
   * once each.
   */
  ghost predicate IsReport(g: WorkflowGraph, findings: seq<ReachFinding>) {
    if g.Nodes == map[] || (g.EntryAmbiguous && g.EntryNodeID == "") then findings == []
    else if g.EntryNodeID == "" then findings == [NewFinding(RULE, Critical, "", EntryUnset, 1.0)]
    else if g.EntryNodeID !in g.Nodes then
      findings == [NewFinding(RULE, Critical, g.EntryNodeID, EntryMissing(g.EntryNodeID), 1.0)]
    else
      && (forall v :: Reported(findings, v) <==> v in g.Nodes && !Reaches(Steps(g), g.EntryNodeID, v))
      && OncePerNode(findings)
      && (forall f :: f in findings ==> f.NodeID in g.Nodes && f == UnreachableFinding(g, f.NodeID))
  }

  /** A Warning at an unreachable LLM or Tool node, Info at one of another type. */
  ghost predicate Told(g: WorkflowGraph, f: ReachFinding) {
    && f.NodeID in g.Nodes && f.RuleName == "unreachable_node" && f.Confidence == 1.0
    && f.Message == Unreachable(f.NodeID, g.EntryNodeID)
    && (f.Severity == Warning <==> g.Nodes[f.NodeID].Type == LLM || g.Nodes[f.NodeID].Type == Tool)
    && (f.Severity == Info <==> g.Nodes[f.NodeID].Type != LLM && g.Nodes[f.NodeID].Type != Tool)
  }

  method Analyze(g: WorkflowGraph) returns (findings: seq<ReachFinding>)
    ensures IsReport(g, findings)
    ensures g.EntryNodeID != "" && g.EntryNodeID in g.Nodes ==> forall f :: f in findings ==> Told(g, f)
  {
    if |g.Nodes| == 0 || (g.EntryAmbiguous && g.EntryNodeID == "") {
      return [];
    }
    if g.EntryNodeID == "" {
      return [NewFinding(RULE, Critical, "", EntryUnset, 1.0)];
    }
    if g.EntryNodeID !in g.Nodes {
      return [NewFinding(RULE, Critical, g.EntryNodeID, EntryMissing(g.EntryNodeID), 1.0)];
    }
    var visited := Search(g);
    findings := ReportUnvisited(g, visited);
  }
}
