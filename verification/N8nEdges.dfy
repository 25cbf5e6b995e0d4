/** The n8n parser, second pass: connections become edges. */
module N8nEdges {
  import opened Domain
  import opened Ordering
  import opened N8n

  function BranchCondition(isCondition: bool, port: nat): string {
    if isCondition && port == 0 then "true"
    else if isCondition && port == 1 then "false"
    else if port == 0 then ""
    else "branch_" + Itoa(port)
  }

  lemma BranchesAreNotAi(isCondition: bool, port: nat)
    ensures !("ai_" <= BranchCondition(isCondition, port))
  {
    var c := BranchCondition(isCondition, port);
    assert c == "" || c[0] != 'a';
  }

  predicate IsAiPort(port: string) {
    port != "main" && "ai_" <= port
  }

  predicate IsConditionNode(s: Tables, id: string) {
    id in s.nodes && s.nodes[id].Type == Condition
  }

  function Outputs(ports: Ports, port: string): seq<seq<string>> {
    if port in ports then ports[port] else []
  }

  // ----- Which edges a document has

  ghost predicate MainTo(s: Tables, from: string, condition: string, refs: seq<string>, e: Edge) {
    exists i :: 0 <= i < |refs| && ResolveRef(s, refs[i]) != "" && e == Edge(from, ResolveRef(s, refs[i]), condition)
  }

  /** A main connection of the source, labelled by its output port. */
  ghost predicate MainConnection(s: Tables, from: string, outputs: seq<seq<string>>, e: Edge) {
    exists p :: 0 <= p < |outputs| && MainTo(s, from, BranchCondition(IsConditionNode(s, from), p), outputs[p], e)
  }

  ghost predicate AiTo(s: Tables, from: string, port: string, refs: seq<string>, e: Edge) {
    exists i :: 0 <= i < |refs| && refs[i] in s.nameToID && e == Edge(from, s.nameToID[refs[i]], port)
  }

  /** A connection of one ai_* type; only names resolve there. */
  ghost predicate AiConnection(s: Tables, from: string, port: string, outputs: seq<seq<string>>, e: Edge) {
    exists p :: 0 <= p < |outputs| && AiTo(s, from, port, outputs[p], e)
  }

  ghost predicate EdgeOf(wf: Workflow, s: Tables, src: string, e: Edge) {
    && src in wf.Connections && ResolveRef(s, src) != ""
    && (|| MainConnection(s, ResolveRef(s, src), Outputs(wf.Connections[src], "main"), e)
        || exists port :: port in wf.Connections[src] && IsAiPort(port)
                          && AiConnection(s, ResolveRef(s, src), port, wf.Connections[src][port], e))
  }

  // ----- In which order and how often

  function MainRefs(s: Tables, from: string, condition: string, refs: seq<string>): seq<Edge> {
    if refs == [] then []
    else
      var last := |refs| - 1;
      var to := ResolveRef(s, refs[last]);
      MainRefs(s, from, condition, refs[..last]) + if to != "" then [Edge(from, to, condition)] else []
  }

  function MainEdges(s: Tables, from: string, outputs: seq<seq<string>>): seq<Edge> {
    if outputs == [] then []
    else
      var last := |outputs| - 1;
      MainEdges(s, from, outputs[..last])
      + MainRefs(s, from, BranchCondition(IsConditionNode(s, from), last), outputs[last])
  }

  function AiRefs(s: Tables, from: string, port: string, refs: seq<string>): seq<Edge> {
    if refs == [] then []
    else
      var last := |refs| - 1;
      AiRefs(s, from, port, refs[..last])
      + if refs[last] in s.nameToID then [Edge(from, s.nameToID[refs[last]], port)] else []
  }

  function AiEdges(s: Tables, from: string, port: string, outputs: seq<seq<string>>): seq<Edge> {
    if outputs == [] then []
    else
      var last := |outputs| - 1;
      AiEdges(s, from, port, outputs[..last]) + AiRefs(s, from, port, outputs[last])
  }

  /** One connection type beside main, if it is an ai_* one. */
  function PortEdges(s: Tables, from: string, ports: Ports, port: string): seq<Edge> {
    if IsAiPort(port) then AiEdges(s, from, port, Outputs(ports, port)) else []
  }

  /** The connection types in the order in which the map is ranged over. */
  function PortsEdges(s: Tables, from: string, ports: Ports, order: seq<string>): seq<Edge> {
    if order == [] then []
    else
      var last := |order| - 1;
      PortsEdges(s, from, ports, order[..last]) + PortEdges(s, from, ports, order[last])
  }

  function SourceEdges(wf: Workflow, s: Tables, src: string, order: seq<string>): seq<Edge>
    requires src in wf.Connections
  {
    var from, ports := ResolveRef(s, src), wf.Connections[src];
    if from == "" then [] else MainEdges(s, from, Outputs(ports, "main")) + PortsEdges(s, from, ports, order)
  }

  ghost predicate OrdersPorts(wf: Workflow, src: string, order: seq<string>) {
    src in wf.Connections && multiset(order) == multiset(wf.Connections[src].Keys)
  }

  /** For each source some order of its connection types. */
  ghost predicate OrdersAllPorts(wf: Workflow, srcs: seq<string>, orders: seq<seq<string>>) {
    |orders| == |srcs| && forall i :: 0 <= i < |srcs| ==> OrdersPorts(wf, srcs[i], orders[i])
  }

  ghost function AllEdges(wf: Workflow, s: Tables, srcs: seq<string>, orders: seq<seq<string>>): seq<Edge>
    requires OrdersAllPorts(wf, srcs, orders)
  {
    if srcs == [] then []
    else
      var last := |srcs| - 1;
      assert OrdersPorts(wf, srcs[last], orders[last]);
      AllEdges(wf, s, srcs[..last], orders[..last]) + SourceEdges(wf, s, srcs[last], orders[last])
  }

  ghost predicate ListsSources(wf: Workflow, srcs: seq<string>) {
    SortedBy(StrLe, srcs) && multiset(srcs) == multiset(wf.Connections.Keys)
  }

  /** The sources in string order, each with its main edges and then its ai_* edges, these by type in any order. */
  ghost predicate IsEdgeList(wf: Workflow, s: Tables, edges: seq<Edge>) {
    exists srcs: seq<string>, orders: seq<seq<string>> ::
      ListsSources(wf, srcs) && OrdersAllPorts(wf, srcs, orders) && edges == AllEdges(wf, s, srcs, orders)
  }

  // ----- The pass

  method AddMainRefs(s: Tables, from: string, condition: string, refs: seq<string>, edges0: seq<Edge>)
    returns (edges: seq<Edge>)
    ensures edges == edges0 + MainRefs(s, from, condition, refs)
  {
    edges := edges0;
    for i := 0 to |refs|
      invariant edges == edges0 + MainRefs(s, from, condition, refs[..i])
    {
      var toID := ResolveRef(s, refs[i]);
      assert refs[..i + 1][..i] == refs[..i];
      if toID != "" {
        Associative(edges0, MainRefs(s, from, condition, refs[..i]), [Edge(from, toID, condition)]);
        edges := edges + [Edge(from, toID, condition)];
      }
    }
    assert refs[..|refs|] == refs;
  }

  method AddMainEdges(s: Tables, from: string, outputs: seq<seq<string>>, edges0: seq<Edge>) returns (edges: seq<Edge>)
    ensures edges == edges0 + MainEdges(s, from, outputs)
  {
    edges := edges0;
    for p := 0 to |outputs|
      invariant edges == edges0 + MainEdges(s, from, outputs[..p])
    {
      var condition := BranchCondition(IsConditionNode(s, from), p);
      assert outputs[..p + 1][..p] == outputs[..p];
      Associative(edges0, MainEdges(s, from, outputs[..p]), MainRefs(s, from, condition, outputs[p]));
      edges := AddMainRefs(s, from, condition, outputs[p], edges);
    }
    assert outputs[..|outputs|] == outputs;
  }

  method AddAiRefs(s: Tables, from: string, port: string, refs: seq<string>, edges0: seq<Edge>)
    returns (edges: seq<Edge>)
    ensures edges == edges0 + AiRefs(s, from, port, refs)
  {
    edges := edges0;
    for i := 0 to |refs|
      invariant edges == edges0 + AiRefs(s, from, port, refs[..i])
    {
      assert refs[..i + 1][..i] == refs[..i];
      if refs[i] in s.nameToID {
        Associative(edges0, AiRefs(s, from, port, refs[..i]), [Edge(from, s.nameToID[refs[i]], port)]);
        edges := edges + [Edge(from, s.nameToID[refs[i]], port)];
      }
    }
    assert refs[..|refs|] == refs;
  }

  method AddAiEdges(s: Tables, from: string, port: string, outputs: seq<seq<string>>, edges0: seq<Edge>)
    returns (edges: seq<Edge>)
    ensures edges == edges0 + AiEdges(s, from, port, outputs)
  {
    edges := edges0;
    for p := 0 to |outputs|
      invariant edges == edges0 + AiEdges(s, from, port, outputs[..p])
    {
      assert outputs[..p + 1][..p] == outputs[..p];
      Associative(edges0, AiEdges(s, from, port, outputs[..p]), AiRefs(s, from, port, outputs[p]));
      edges := AddAiRefs(s, from, port, outputs[p], edges);
    }
    assert outputs[..|outputs|] == outputs;
  }

  method AddPortsEdges(s: Tables, from: string, ports: Ports, order: seq<string>, edges0: seq<Edge>)
    returns (edges: seq<Edge>)
    ensures edges == edges0 + PortsEdges(s, from, ports, order)
  {
    edges := edges0;
    for i := 0 to |order|
      invariant edges == edges0 + PortsEdges(s, from, ports, order[..i])
    {
      assert order[..i + 1][..i] == order[..i];
      Associative(edges0, PortsEdges(s, from, ports, order[..i]), PortEdges(s, from, ports, order[i]));
      if IsAiPort(order[i]) {
        edges := AddAiEdges(s, from, order[i], Outputs(ports, order[i]), edges);
      }
    }
    assert order[..|order|] == order;
  }

  /** All edges of one source: the main outputs, then the ai_* connection types in map order. */
  method AddSourceEdges(wf: Workflow, s: Tables, src: string, edges0: seq<Edge>)
    returns (edges: seq<Edge>, ghost order: seq<string>)
    requires src in wf.Connections
    ensures OrdersPorts(wf, src, order) && edges == edges0 + SourceEdges(wf, s, src, order)
  {
    var fromID, ports := ResolveRef(s, src), wf.Connections[src];
    var portNames := Keys(ports.Keys);
    order := portNames;
    if fromID == "" {
      return edges0, order;
    }
    edges := AddMainEdges(s, fromID, Outputs(ports, "main"), edges0);
    edges := AddPortsEdges(s, fromID, ports, portNames, edges);
    Associative(edges0, MainEdges(s, fromID, Outputs(ports, "main")), PortsEdges(s, fromID, ports, order));
  }

  lemma AllEdgesSnoc(wf: Workflow, s: Tables, srcs: seq<string>, orders: seq<seq<string>>, src: string,
                     order: seq<string>)
    requires OrdersAllPorts(wf, srcs, orders) && OrdersPorts(wf, src, order)
    ensures OrdersAllPorts(wf, srcs + [src], orders + [order])
    ensures AllEdges(wf, s, srcs + [src], orders + [order]) ==
              AllEdges(wf, s, srcs, orders) + SourceEdges(wf, s, src, order)
  {
    assert (srcs + [src])[..|srcs|] == srcs && (orders + [order])[..|orders|] == orders;
  }

  method ResolveEdges(wf: Workflow, s: Tables) returns (edges: seq<Edge>)
    ensures IsEdgeList(wf, s, edges)
  {
    var srcNames := Keys(wf.Connections.Keys);
    StrLeIsTotalPreorder();
    var sorted := SortSlice(StrLe, srcNames);
    forall i | 0 <= i < |sorted| ensures sorted[i] in wf.Connections {
      SameElements(sorted, srcNames, sorted[i]);
    }
    edges := [];
    ghost var orders: seq<seq<string>> := [];
    for i := 0 to |sorted|
      invariant OrdersAllPorts(wf, sorted[..i], orders) && edges == AllEdges(wf, s, sorted[..i], orders)
    {
      ghost var order;
      edges, order := AddSourceEdges(wf, s, sorted[i], edges);
      AllEdgesSnoc(wf, s, sorted[..i], orders, sorted[i], order);
      assert sorted[..i + 1] == sorted[..i] + [sorted[i]];
      orders := orders + [order];
    }
    assert sorted[..|sorted|] == sorted;
    assert ListsSources(wf, sorted) && edges == AllEdges(wf, s, sorted, orders);
  }

  // ----- Every edge list of a document holds the same edges

  lemma {:induction false} MainRefsAre(s: Tables, from: string, condition: string, refs: seq<string>, e: Edge)
    ensures e in MainRefs(s, from, condition, refs) <==> MainTo(s, from, condition, refs, e)
  {
    if refs != [] {
      var last := |refs| - 1;
      MainRefsAre(s, from, condition, refs[..last], e);
      assert refs == refs[..last] + [refs[last]];
      if MainTo(s, from, condition, refs[..last], e) {
        var i :|
          0 <= i < last && ResolveRef(s, refs[..last][i]) != ""
          && e == Edge(from, ResolveRef(s, refs[..last][i]), condition);
        assert refs[i] == refs[..last][i];
      }
    }
  }

  lemma {:induction false} MainEdgesAre(s: Tables, from: string, outputs: seq<seq<string>>, e: Edge)
    ensures e in MainEdges(s, from, outputs) <==> MainConnection(s, from, outputs, e)
  {
    if outputs != [] {
      var last := |outputs| - 1;
      MainEdgesAre(s, from, outputs[..last], e);
      MainRefsAre(s, from, BranchCondition(IsConditionNode(s, from), last), outputs[last], e);
      if MainConnection(s, from, outputs[..last], e) {
        var p :| 0 <= p < last && MainTo(s, from, BranchCondition(IsConditionNode(s, from), p), outputs[..last][p], e);
        assert outputs[p] == outputs[..last][p];
      }
      if MainConnection(s, from, outputs, e) {
        var p :| 0 <= p <= last && MainTo(s, from, BranchCondition(IsConditionNode(s, from), p), outputs[p], e);
        assert p < last ==> outputs[..last][p] == outputs[p];
      }
    }
  }

  lemma {:induction false} AiRefsAre(s: Tables, from: string, port: string, refs: seq<string>, e: Edge)
    ensures e in AiRefs(s, from, port, refs) <==> AiTo(s, from, port, refs, e)
  {
    if refs != [] {
      var last := |refs| - 1;
      AiRefsAre(s, from, port, refs[..last], e);
      assert refs == refs[..last] + [refs[last]];
      if AiTo(s, from, port, refs[..last], e) {
        var i :| 0 <= i < last && refs[..last][i] in s.nameToID && e == Edge(from, s.nameToID[refs[..last][i]], port);
        assert refs[i] == refs[..last][i];
      }
    }
  }

  lemma {:induction false} AiEdgesAre(s: Tables, from: string, port: string, outputs: seq<seq<string>>, e: Edge)
    ensures e in AiEdges(s, from, port, outputs) <==> AiConnection(s, from, port, outputs, e)
  {
    if outputs != [] {
      var last := |outputs| - 1;
      AiEdgesAre(s, from, port, outputs[..last], e);
      AiRefsAre(s, from, port, outputs[last], e);
      if AiConnection(s, from, port, outputs[..last], e) {
        var p :| 0 <= p < last && AiTo(s, from, port, outputs[..last][p], e);
        assert outputs[p] == outputs[..last][p];
      }
      if AiConnection(s, from, port, outputs, e) {
        var p :| 0 <= p <= last && AiTo(s, from, port, outputs[p], e);
        assert p < last ==> outputs[..last][p] == outputs[p];
      }
    }
  }

  ghost predicate AiEdgeOf(s: Tables, from: string, ports: Ports, order: seq<string>, e: Edge) {
    exists port :: port in order && IsAiPort(port) && AiConnection(s, from, port, Outputs(ports, port), e)
  }

  lemma {:induction false} PortsEdgesAre(s: Tables, from: string, ports: Ports, order: seq<string>, e: Edge)
    ensures e in PortsEdges(s, from, ports, order) <==> AiEdgeOf(s, from, ports, order, e)
  {
    if order != [] {
      var last := |order| - 1;
      PortsEdgesAre(s, from, ports, order[..last], e);
      AiEdgesAre(s, from, order[last], Outputs(ports, order[last]), e);
      assert order == order[..last] + [order[last]];
      assert forall port :: port in order <==> port in order[..last] || port == order[last];
    }
  }

  lemma SourceEdgesAre(wf: Workflow, s: Tables, src: string, order: seq<string>, e: Edge)
    requires OrdersPorts(wf, src, order)
    ensures e in SourceEdges(wf, s, src, order) <==> EdgeOf(wf, s, src, e)
  {
    var from, ports := ResolveRef(s, src), wf.Connections[src];
    MainEdgesAre(s, from, Outputs(ports, "main"), e);
    PortsEdgesAre(s, from, ports, order, e);
    forall port ensures port in order <==> port in ports {
      assert port in order <==> port in multiset(order);
    }
  }

  ghost predicate EdgeOfOne(wf: Workflow, s: Tables, srcs: seq<string>, e: Edge) {
    exists src :: src in srcs && EdgeOf(wf, s, src, e)
  }

  lemma EdgeOfOneSnoc(wf: Workflow, s: Tables, srcs: seq<string>, src: string, e: Edge)
    ensures EdgeOfOne(wf, s, srcs + [src], e) <==> EdgeOfOne(wf, s, srcs, e) || EdgeOf(wf, s, src, e)
  {
    assert forall x :: x in srcs + [src] <==> x in srcs || x == src;
  }

  lemma {:induction false} AllEdgesAre(wf: Workflow, s: Tables, srcs: seq<string>, orders: seq<seq<string>>, e: Edge)
    requires OrdersAllPorts(wf, srcs, orders)
    ensures e in AllEdges(wf, s, srcs, orders) <==> EdgeOfOne(wf, s, srcs, e)
  {
    if srcs != [] {
      var last := |srcs| - 1;
      AllEdgesAre(wf, s, srcs[..last], orders[..last], e);
      SourceEdgesAre(wf, s, srcs[last], orders[last], e);
      EdgeOfOneSnoc(wf, s, srcs[..last], srcs[last], e);
      assert srcs == srcs[..last] + [srcs[last]];
    }
  }

  /** The edges are exactly those of the sources' resolvable connections. */
  lemma EdgeListHolds(wf: Workflow, s: Tables, edges: seq<Edge>, e: Edge)
    requires IsEdgeList(wf, s, edges)
    ensures e in edges <==> exists src :: EdgeOf(wf, s, src, e)
  {
    var srcs: seq<string>, orders: seq<seq<string>> :|
      ListsSources(wf, srcs) && OrdersAllPorts(wf, srcs, orders) && edges == AllEdges(wf, s, srcs, orders);
    AllEdgesAre(wf, s, srcs, orders, e);
    forall src ensures src in srcs <==> src in wf.Connections {
      assert src in srcs <==> src in multiset(srcs);
    }
  }

  lemma {:induction false} PortsConcat(s: Tables, from: string, ports: Ports, a: seq<string>, b: seq<string>)
    ensures PortsEdges(s, from, ports, a + b) == PortsEdges(s, from, ports, a) + PortsEdges(s, from, ports, b)
  {
    if b == [] {
      assert a + b == a;
    } else {
      var last := |b| - 1;
      PortsConcat(s, from, ports, a, b[..last]);
      assert (a + b)[..|a| + last] == a + b[..last];
      Associative(
        PortsEdges(s, from, ports, a), PortsEdges(s, from, ports, b[..last]), PortEdges(s, from, ports, b[last]));
    }
  }

  lemma PortsWithout(s: Tables, from: string, ports: Ports, l: seq<string>, x: string, r: seq<string>)
    ensures multiset(PortsEdges(s, from, ports, l + [x] + r))
         == multiset(PortsEdges(s, from, ports, l + r)) + multiset(PortEdges(s, from, ports, x))
  {
    PortsConcat(s, from, ports, l, r);
    PortsConcat(s, from, ports, l + [x], r);
    assert (l + [x])[..|l|] == l;
  }

  /** Taking one connection type out of the order takes out its edges. */
  lemma TakeOut(s: Tables, from: string, ports: Ports, order: seq<string>, x: string) returns (rest: seq<string>)
    requires x in order
    ensures |rest| < |order| && multiset(order) == multiset(rest) + multiset{x}
    ensures multiset(PortsEdges(s, from, ports, order)) ==
              multiset(PortsEdges(s, from, ports, rest)) + multiset(PortEdges(s, from, ports, x))
  {
    var j :| 0 <= j < |order| && order[j] == x;
    var l, r := order[..j], order[j + 1..];
    assert order == l + [x] + r;
    PortsWithout(s, from, ports, l, x, r);
    rest := l + r;
  }

  lemma {:induction false} PortsPermuted(s: Tables, from: string, ports: Ports, a: seq<string>, b: seq<string>)
    requires multiset(a) == multiset(b)
    ensures multiset(PortsEdges(s, from, ports, a)) == multiset(PortsEdges(s, from, ports, b))
    decreases |a|
  {
    if a == [] {
      assert |multiset(b)| == 0;
    } else {
      SameElements(a, b, a[0]);
      var a' := TakeOut(s, from, ports, a, a[0]);
      var b' := TakeOut(s, from, ports, b, a[0]);
      assert multiset(a') == multiset(a) - multiset{a[0]} && multiset(b') == multiset(b) - multiset{a[0]};
      PortsPermuted(s, from, ports, a', b');
    }
  }

  lemma {:induction false} AllEdgesPermuted(wf: Workflow, s: Tables, srcs: seq<string>, a: seq<seq<string>>,
                                            b: seq<seq<string>>)
    requires OrdersAllPorts(wf, srcs, a) && OrdersAllPorts(wf, srcs, b)
    ensures multiset(AllEdges(wf, s, srcs, a)) == multiset(AllEdges(wf, s, srcs, b))
  {
    if srcs != [] {
      var last := |srcs| - 1;
      AllEdgesPermuted(wf, s, srcs[..last], a[..last], b[..last]);
      assert OrdersPorts(wf, srcs[last], a[last]) && OrdersPorts(wf, srcs[last], b[last]);
      PortsPermuted(s, ResolveRef(s, srcs[last]), wf.Connections[srcs[last]], a[last], b[last]);
    }
  }

  /** Map order cannot add, drop or repeat an edge: it only moves the ai_* edges of a source among themselves. */
  lemma EdgeListsAgree(wf: Workflow, s: Tables, a: seq<Edge>, b: seq<Edge>)
    requires IsEdgeList(wf, s, a) && IsEdgeList(wf, s, b)
    ensures multiset(a) == multiset(b)
  {
    var srcs: seq<string>, orders: seq<seq<string>> :|
      ListsSources(wf, srcs) && OrdersAllPorts(wf, srcs, orders) && a == AllEdges(wf, s, srcs, orders);
    var srcs': seq<string>, orders': seq<seq<string>> :|
      ListsSources(wf, srcs') && OrdersAllPorts(wf, srcs', orders') && b == AllEdges(wf, s, srcs', orders');
    SortedStringsUnique(srcs, srcs');
    AllEdgesPermuted(wf, s, srcs, orders, orders');
  }

  /** Edges join existing nodes, for every workflow: unresolvable references are dropped. */
  lemma EdgesJoinNodes(wf: Workflow, s: Tables, src: string, e: Edge)
    requires Consistent(s) && EdgeOf(wf, s, src, e)
    ensures e.From in s.nodes && e.To in s.nodes
  {}
}
