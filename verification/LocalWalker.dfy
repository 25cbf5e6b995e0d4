/** GraphWalker: one shared pass over the graph feeds every Local rule. */
module LocalWalker {
  import opened Domain
  import opened Ordering

  // ----- Rules as handlers over private state

  /** A handler sees its rule's private state and reports findings through the context. */
  type Handler<!X, !S, M> = (S, X) -> (S, seq<Finding<M>>)

  datatype Listener<!S, M> = Listener(
    onNode: map<NodeType, Handler<Node, S, M>>,
    onAny: Option<Handler<Node, S, M>>,
    onEdge: Option<Handler<Edge, S, M>>,
    onGraph: Option<Handler<WorkflowGraph, S, M>>
  )

  datatype LocalRule<!S, M> = LocalRule(name: string, init: S, listener: Listener<S, M>)

  /** A rule's private state and what it has reported so far. */
  datatype Progress<S, M> = Progress(state: S, findings: seq<Finding<M>>)

  /** Report fills in a missing rule name. */
  function Stamp<M>(name: string, f: Finding<M>): Finding<M> {
    if f.RuleName == "" then f.(RuleName := name) else f
  }

  function StampAll<M>(name: string, fs: seq<Finding<M>>): seq<Finding<M>> {
    if fs == [] then [] else StampAll(name, fs[..|fs| - 1]) + [Stamp(name, fs[|fs| - 1])]
  }

  // ----- One rule on its own

  function Handle<X, S, M>(name: string, h: Handler<X, S, M>, x: X, p: Progress<S, M>): Progress<S, M> {
    var (state, fs) := h(p.state, x);
    Progress(state, p.findings + StampAll(name, fs))
  }

  function HandleIfSet<X, S, M>(name: string, h: Option<Handler<X, S, M>>, x: X, p: Progress<S, M>): Progress<S, M> {
    if h.Some? then Handle(name, h.value, x, p) else p
  }

  /** OnAny first, then the handler for the node's type. */
  function AtNode<S, M>(r: LocalRule<S, M>, n: Node, p: Progress<S, M>): Progress<S, M> {
    var p := HandleIfSet(r.name, r.listener.onAny, n, p);
    if n.Type in r.listener.onNode then Handle(r.name, r.listener.onNode[n.Type], n, p) else p
  }

  function AfterNodes<S, M>(g: WorkflowGraph, r: LocalRule<S, M>, order: seq<string>): Progress<S, M>
    requires forall id :: id in order ==> id in g.Nodes
  {
    if order == [] then Progress(r.init, [])
    else
      var last := |order| - 1;
      assert order[last] in order && forall id :: id in order[..last] ==> id in order;
      AtNode(r, g.Nodes[order[last]], AfterNodes(g, r, order[..last]))
  }

  function AfterEdges<S, M>(r: LocalRule<S, M>, edges: seq<Edge>, p: Progress<S, M>): Progress<S, M> {
    if edges == [] then p
    else HandleIfSet(r.name, r.listener.onEdge, edges[|edges| - 1], AfterEdges(r, edges[..|edges| - 1], p))
  }

  /** What the rule reports when it walks the graph alone, visiting the nodes in the given order. */
  function Alone<S, M>(g: WorkflowGraph, r: LocalRule<S, M>, order: seq<string>): seq<Finding<M>>
    requires forall id :: id in order ==> id in g.Nodes
  {
    HandleIfSet(r.name, r.listener.onGraph, g, AfterEdges(r, g.Edges, AfterNodes(g, r, order))).findings
  }

  function AllAlone<S, M>(g: WorkflowGraph, rules: seq<LocalRule<S, M>>, order: seq<string>): seq<Finding<M>>
    requires forall id :: id in order ==> id in g.Nodes
  {
    if rules == [] then [] else AllAlone(g, rules[..|rules| - 1], order) + Alone(g, rules[|rules| - 1], order)
  }

  // ----- The calls a rule is owed

  datatype Call = AnyNode(n: Node) | NodeOfType(n: Node) | AnEdge(e: Edge) | WholeGraph

  /** At a node the handler for every node, then the one for the node's type. */
  function CallsAtNode<S, M>(l: Listener<S, M>, n: Node): seq<Call> {
    (if l.onAny.Some? then [AnyNode(n)] else []) + (if n.Type in l.onNode then [NodeOfType(n)] else [])
  }

  function CallsAtNodes<S, M>(g: WorkflowGraph, l: Listener<S, M>, order: seq<string>): seq<Call>
    requires forall id :: id in order ==> id in g.Nodes
  {
    if order == [] then []
    else
      var last := |order| - 1;
      assert order[last] in order && forall id :: id in order[..last] ==> id in order;
      CallsAtNodes(g, l, order[..last]) + CallsAtNode(l, g.Nodes[order[last]])
  }

  function CallsAtEdges<S, M>(l: Listener<S, M>, edges: seq<Edge>): seq<Call> {
    if l.onEdge.None? then [] else seq(|edges|, i requires 0 <= i < |edges| => AnEdge(edges[i]))
  }

  /** The nodes in the given order, then every edge in edge order, then the graph. */
  function Owed<S, M>(g: WorkflowGraph, l: Listener<S, M>, order: seq<string>): seq<Call>
    requires forall id :: id in order ==> id in g.Nodes
  {
    CallsAtNodes(g, l, order) + CallsAtEdges(l, g.Edges) + if l.onGraph.Some? then [WholeGraph] else []
  }

  /** What the listener's handler for the call makes of the state, and what it reports. */
  function Reply<S, M>(g: WorkflowGraph, l: Listener<S, M>, c: Call, s: S): (S, seq<Finding<M>>) {
    match c
    case AnyNode(n) => if l.onAny.Some? then l.onAny.value(s, n) else (s, [])
    case NodeOfType(n) => if n.Type in l.onNode then l.onNode[n.Type](s, n) else (s, [])
    case AnEdge(e) => if l.onEdge.Some? then l.onEdge.value(s, e) else (s, [])
    case WholeGraph => if l.onGraph.Some? then l.onGraph.value(s, g) else (s, [])
  }

  /** The calls made one after another, each on the state the one before left. */
  function Answers<S, M>(g: WorkflowGraph, r: LocalRule<S, M>, calls: seq<Call>, p: Progress<S, M>): Progress<S, M> {
    if calls == [] then p
    else
      var last := |calls| - 1;
      var before := Answers(g, r, calls[..last], p);
      var (state, fs) := Reply(g, r.listener, calls[last], before.state);
      Progress(state, before.findings + StampAll(r.name, fs))
  }

  lemma {:induction false} AnswersConcat<S, M>(g: WorkflowGraph, r: LocalRule<S, M>, a: seq<Call>, b: seq<Call>,
                                               p: Progress<S, M>)
    ensures Answers(g, r, a + b, p) == Answers(g, r, b, Answers(g, r, a, p))
  {
    if b == [] {
      assert a + b == a;
    } else {
      var n := |b| - 1;
      assert (a + b)[..|a| + n] == a + b[..n];
      AnswersConcat(g, r, a, b[..n], p);
    }
  }

  lemma AnswersOne<S, M>(g: WorkflowGraph, r: LocalRule<S, M>, c: Call, p: Progress<S, M>)
    ensures var (state, fs) := Reply(g, r.listener, c, p.state);
            Answers(g, r, [c], p) == Progress(state, p.findings + StampAll(r.name, fs))
  {
    assert [c][..0] == [];
    assert Answers(g, r, [c][..0], p) == p;
  }

  lemma NodeIsOwed<S, M>(g: WorkflowGraph, r: LocalRule<S, M>, n: Node, p: Progress<S, M>)
    ensures AtNode(r, n, p) == Answers(g, r, CallsAtNode(r.listener, n), p)
  {
    var l := r.listener;
    var first: seq<Call> := if l.onAny.Some? then [AnyNode(n)] else [];
    var second: seq<Call> := if n.Type in l.onNode then [NodeOfType(n)] else [];
    AnswersConcat(g, r, first, second, p);
    AnswersOne(g, r, AnyNode(n), p);
    AnswersOne(g, r, NodeOfType(n), Answers(g, r, first, p));
  }

  lemma {:induction false} NodesAreOwed<S, M>(g: WorkflowGraph, r: LocalRule<S, M>, order: seq<string>)
    requires forall id :: id in order ==> id in g.Nodes
    ensures AfterNodes(g, r, order) == Answers(g, r, CallsAtNodes(g, r.listener, order), Progress(r.init, []))
  {
    if order != [] {
      var last := |order| - 1;
      var n := g.Nodes[order[last]];
      NodesAreOwed(g, r, order[..last]);
      NodeIsOwed(g, r, n, AfterNodes(g, r, order[..last]));
      AnswersConcat(g, r, CallsAtNodes(g, r.listener, order[..last]), CallsAtNode(r.listener, n), Progress(r.init, []));
    }
  }

  lemma {:induction false} EdgesAreOwed<S, M>(g: WorkflowGraph, r: LocalRule<S, M>, edges: seq<Edge>, p: Progress<S, M>)
    ensures AfterEdges(r, edges, p) == Answers(g, r, CallsAtEdges(r.listener, edges), p)
  {
    if edges != [] {
      var n := |edges| - 1;
      EdgesAreOwed(g, r, edges[..n], p);
      if r.listener.onEdge.Some? {
        assert CallsAtEdges(r.listener, edges) == CallsAtEdges(r.listener, edges[..n]) + [AnEdge(edges[n])];
        AnswersConcat(g, r, CallsAtEdges(r.listener, edges[..n]), [AnEdge(edges[n])], p);
        AnswersOne(g, r, AnEdge(edges[n]), Answers(g, r, CallsAtEdges(r.listener, edges[..n]), p));
      }
    }
  }

  /** Walking alone, a rule gets exactly the calls it is owed. */
  lemma AloneIsOwed<S, M>(g: WorkflowGraph, r: LocalRule<S, M>, order: seq<string>)
    requires forall id :: id in order ==> id in g.Nodes
    ensures Alone(g, r, order) == Answers(g, r, Owed(g, r.listener, order), Progress(r.init, [])).findings
  {
    var l, start := r.listener, Progress(r.init, []);
    var nodes, edges := CallsAtNodes(g, l, order), CallsAtEdges(l, g.Edges);
    var whole: seq<Call> := if l.onGraph.Some? then [WholeGraph] else [];
    NodesAreOwed(g, r, order);
    EdgesAreOwed(g, r, g.Edges, AfterNodes(g, r, order));
    AnswersConcat(g, r, nodes, edges, start);
    AnswersConcat(g, r, nodes + edges, whole, start);
    AnswersOne(g, r, WholeGraph, Answers(g, r, nodes + edges, start));
  }

  /** The shares of the rules one after another, each made up of the answers to its calls. */
  function Shares<S, M>(g: WorkflowGraph, rules: seq<LocalRule<S, M>>, order: seq<string>): seq<Finding<M>>
    requires forall id :: id in order ==> id in g.Nodes
  {
    if rules == [] then []
    else
      var r := rules[|rules| - 1];
      Shares(g, rules[..|rules| - 1], order)
      + Answers(g, r, Owed(g, r.listener, order), Progress(r.init, [])).findings
  }

  lemma {:induction false} AllAloneAreOwed<S, M>(g: WorkflowGraph, rules: seq<LocalRule<S, M>>, order: seq<string>)
    requires forall id :: id in order ==> id in g.Nodes
    ensures AllAlone(g, rules, order) == Shares(g, rules, order)
  {
    if rules != [] {
      AllAloneAreOwed(g, rules[..|rules| - 1], order);
      AloneIsOwed(g, rules[|rules| - 1], order);
    }
  }

  // ----- What a rule without changing state reports

  /** Its handlers leave the state as they find it. */
  ghost predicate Stateless<S, M>(g: WorkflowGraph, r: LocalRule<S, M>) {
    forall c :: Reply(g, r.listener, c, r.init).0 == r.init
  }

  /** Some handler that applies reports f. */
  ghost predicate Raises<S, M>(g: WorkflowGraph, r: LocalRule<S, M>, f: Finding<M>) {
    var l := r.listener;
    || (l.onAny.Some? && exists id :: id in g.Nodes && f in l.onAny.value(r.init, g.Nodes[id]).1)
    || (exists id :: id in g.Nodes && g.Nodes[id].Type in l.onNode
                     && f in l.onNode[g.Nodes[id].Type](r.init, g.Nodes[id]).1)
    || (l.onEdge.Some? && exists e :: e in g.Edges && f in l.onEdge.value(r.init, e).1)
    || (l.onGraph.Some? && f in l.onGraph.value(r.init, g).1)
  }

  /** x is f under the rule's name if it had none. */
  ghost predicate Named<M>(name: string, f: Finding<M>, x: Finding<M>) {
    && x.(RuleName := f.RuleName) == f
    && (f.RuleName != "" ==> x.RuleName == f.RuleName) && (f.RuleName == "" ==> x.RuleName == name)
  }

  lemma {:induction false} StampAllAre<M(!new)>(name: string, fs: seq<Finding<M>>, x: Finding<M>)
    ensures x in StampAll(name, fs) <==> exists f :: f in fs && Named(name, f, x)
  {
    if fs != [] {
      var n := |fs| - 1;
      StampAllAre(name, fs[..n], x);
      assert fs == fs[..n] + [fs[n]];
      assert x == Stamp(name, fs[n]) <==> Named(name, fs[n], x);
    }
  }

  lemma {:induction false} AnswersAre<S, M(!new)>(g: WorkflowGraph, r: LocalRule<S, M>, calls: seq<Call>, x: Finding<M>)
    requires Stateless(g, r)
    ensures var p := Answers(g, r, calls, Progress(r.init, []));
            p.state == r.init && (x in p.findings <==> exists c :: c in calls && Answered(g, r, c, x))
  {
    if calls != [] {
      var n := |calls| - 1;
      AnswersAre(g, r, calls[..n], x);
      assert forall c :: c in calls <==> c in calls[..n] || c == calls[n];
      assert Reply(g, r.listener, calls[n], r.init).0 == r.init;
      var before := Answers(g, r, calls[..n], Progress(r.init, []));
      assert Answers(g, r, calls, Progress(r.init, [])).findings
          == before.findings + StampAll(r.name, Reply(g, r.listener, calls[n], r.init).1);
      assert x in StampAll(r.name, Reply(g, r.listener, calls[n], r.init).1) <==> Answered(g, r, calls[n], x);
    }
  }

  ghost predicate Answered<S, M>(g: WorkflowGraph, r: LocalRule<S, M>, c: Call, x: Finding<M>) {
    x in StampAll(r.name, Reply(g, r.listener, c, r.init).1)
  }

  lemma {:induction false} NodeCallsAre<S, M>(g: WorkflowGraph, l: Listener<S, M>, order: seq<string>, c: Call)
    requires forall id :: id in order ==> id in g.Nodes
    ensures c in CallsAtNodes(g, l, order) <==> exists id :: id in order && c in CallsAtNode(l, g.Nodes[id])
  {
    if order != [] {
      var last := |order| - 1;
      NodeCallsAre(g, l, order[..last], c);
      assert order == order[..last] + [order[last]];
    }
  }

  ghost predicate ListsNodes(g: WorkflowGraph, order: seq<string>) {
    forall id :: id in order <==> id in g.Nodes
  }

  /** A call is owed exactly when its handler is set and it names a node, an edge or the graph. */
  lemma OwedIff<S, M>(g: WorkflowGraph, l: Listener<S, M>, order: seq<string>, c: Call)
    requires ListsNodes(g, order)
    ensures c in Owed(g, l, order) <==>
            match c
            case AnyNode(n) => l.onAny.Some? && exists id :: id in g.Nodes && g.Nodes[id] == n
            case NodeOfType(n) => n.Type in l.onNode && exists id :: id in g.Nodes && g.Nodes[id] == n
            case AnEdge(e) => l.onEdge.Some? && e in g.Edges
            case WholeGraph => l.onGraph.Some?
  {
    NodeCallsAre(g, l, order, c);
    var nodes, edges := CallsAtNodes(g, l, order), CallsAtEdges(l, g.Edges);
    assert c in Owed(g, l, order) <==> c in nodes || c in edges || (c == WholeGraph && l.onGraph.Some?);
    if l.onEdge.Some? {
      forall e | e in g.Edges ensures AnEdge(e) in edges {
        var i :| 0 <= i < |g.Edges| && g.Edges[i] == e;
        assert edges[i] == AnEdge(e);
      }
    }
  }

  /** What a call to a stateless rule is answered with is what some handler raises. */
  lemma AnsweredIsRaised<S, M(!new)>(g: WorkflowGraph, r: LocalRule<S, M>, order: seq<string>, x: Finding<M>)
    requires ListsNodes(g, order)
    ensures (exists c :: c in Owed(g, r.listener, order) && Answered(g, r, c, x)) <==>
            exists f :: Raises(g, r, f) && Named(r.name, f, x)
  {
    var l := r.listener;
    if c :| c in Owed(g, l, order) && Answered(g, r, c, x) {
      OwedIff(g, l, order, c);
      StampAllAre(r.name, Reply(g, l, c, r.init).1, x);
      var f :| f in Reply(g, l, c, r.init).1 && Named(r.name, f, x);
      assert Raises(g, r, f);
    }
    if f :| Raises(g, r, f) && Named(r.name, f, x) {
      var c := CallThatRaises(g, r, f);
      OwedIff(g, l, order, c);
      StampAllAre(r.name, Reply(g, l, c, r.init).1, x);
      assert Answered(g, r, c, x);
    }
  }

  lemma CallThatRaises<S, M>(g: WorkflowGraph, r: LocalRule<S, M>, f: Finding<M>) returns (c: Call)
    requires Raises(g, r, f)
    ensures f in Reply(g, r.listener, c, r.init).1
    ensures match c
            case AnyNode(n) => r.listener.onAny.Some? && exists id :: id in g.Nodes && g.Nodes[id] == n
            case NodeOfType(n) => n.Type in r.listener.onNode && exists id :: id in g.Nodes && g.Nodes[id] == n
            case AnEdge(e) => r.listener.onEdge.Some? && e in g.Edges
            case WholeGraph => r.listener.onGraph.Some?
  {
    var l := r.listener;
    if l.onAny.Some? && exists id :: id in g.Nodes && f in l.onAny.value(r.init, g.Nodes[id]).1 {
      var id :| id in g.Nodes && f in l.onAny.value(r.init, g.Nodes[id]).1;
      c := AnyNode(g.Nodes[id]);
    } else if id :| id in g.Nodes && g.Nodes[id].Type in l.onNode
                    && f in l.onNode[g.Nodes[id].Type](r.init, g.Nodes[id]).1 {
      c := NodeOfType(g.Nodes[id]);
    } else if l.onEdge.Some? && exists e :: e in g.Edges && f in l.onEdge.value(r.init, e).1 {
      var e :| e in g.Edges && f in l.onEdge.value(r.init, e).1;
      c := AnEdge(e);
    } else {
      c := WholeGraph;
    }
  }

  /** A stateless rule reports exactly what its handlers raise at the nodes, the edges and the graph, under its name. */
  lemma StatelessReportIff<S, M(!new)>(g: WorkflowGraph, r: LocalRule<S, M>, order: seq<string>, x: Finding<M>)
    requires ListsNodes(g, order) && Stateless(g, r)
    ensures x in Alone(g, r, order) <==> exists f :: Raises(g, r, f) && Named(r.name, f, x)
  {
    AloneIsOwed(g, r, order);
    AnswersAre(g, r, Owed(g, r.listener, order), x);
    AnsweredIsRaised(g, r, order, x);
  }

  // ----- The shared pass

  /** A rule's scratchpad; `state` is what its handlers close over. */
  class RuleContext<!S, M> {
    const ruleName: string
    var state: S
    var findings: seq<Finding<M>>

    constructor (ruleName: string, state: S)
      ensures this.ruleName == ruleName && Value() == Progress(state, [])
    {
      this.ruleName, this.state, this.findings := ruleName, state, [];
    }

    ghost function Value(): Progress<S, M>
      reads this
    {
      Progress(state, findings)
    }

    method Report(f: Finding<M>)
      modifies this`findings
      ensures findings == old(findings) + [Stamp(ruleName, f)]
    {
      var f := f;
      if f.RuleName == "" {
        f := f.(RuleName := ruleName);
      }
      findings := findings + [f];
    }

    /** Return what was reported and start afresh. */
    method Findings() returns (out: seq<Finding<M>>)
      modifies this`findings
      ensures out == old(findings) && findings == []
    {
      out := findings;
      findings := [];
    }

    method Invoke<X>(h: Handler<X, S, M>, x: X)
      modifies this
      ensures Value() == Handle(ruleName, h, x, old(Value()))
    {
      var (next, fs) := h(state, x);
      state := next;
      for i := 0 to |fs|
        invariant state == next && findings == old(findings) + StampAll(ruleName, fs[..i])
      {
        assert fs[..i + 1][..i] == fs[..i];
        Report(fs[i]);
      }
      assert fs[..|fs|] == fs;
    }
  }

  /** One fresh context for each rule. */
  ghost predicate Contexts<S, M>(rules: seq<LocalRule<S, M>>, contexts: seq<RuleContext<S, M>>) {
    && |contexts| == |rules|
    && (forall i :: 0 <= i < |rules| ==> contexts[i].ruleName == rules[i].name)
    && (forall i, j :: 0 <= i < j < |contexts| ==> contexts[i] != contexts[j])
  }

  method NewContexts<S, M>(rules: seq<LocalRule<S, M>>) returns (contexts: seq<RuleContext<S, M>>)
    ensures Contexts(rules, contexts)
    ensures forall i :: 0 <= i < |contexts| ==> fresh(contexts[i]) && contexts[i].Value() == Progress(rules[i].init, [])
  {
    contexts := [];
    for i := 0 to |rules|
      invariant |contexts| == i
      invariant forall j :: 0 <= j < i ==> fresh(contexts[j]) && contexts[j].ruleName == rules[j].name
      invariant forall j :: 0 <= j < i ==> contexts[j].Value() == Progress(rules[j].init, [])
      invariant forall j, k :: 0 <= j < k < i ==> contexts[j] != contexts[k]
    {
      var ctx := new RuleContext(rules[i].name, rules[i].init);
      contexts := contexts + [ctx];
    }
  }

  /** Dispatch one node to every rule. */
  method DispatchNode<S, M>(rules: seq<LocalRule<S, M>>, contexts: seq<RuleContext<S, M>>, node: Node)
    requires Contexts(rules, contexts)
    modifies set c | c in contexts
    ensures forall i :: 0 <= i < |rules| ==> contexts[i].Value() == AtNode(rules[i], node, old(contexts[i].Value()))
  {
    for i := 0 to |rules|
      invariant forall j :: 0 <= j < i ==> contexts[j].Value() == AtNode(rules[j], node, old(contexts[j].Value()))
      invariant forall j :: i <= j < |rules| ==> contexts[j].Value() == old(contexts[j].Value())
    {
      var l := rules[i].listener;
      if l.onAny.Some? {
        contexts[i].Invoke(l.onAny.value, node);
      }
      if node.Type in l.onNode {
        contexts[i].Invoke(l.onNode[node.Type], node);
      }
    }
  }

  method DispatchEdge<S, M>(rules: seq<LocalRule<S, M>>, contexts: seq<RuleContext<S, M>>, edge: Edge)
    requires Contexts(rules, contexts)
    modifies set c | c in contexts
    ensures forall i :: 0 <= i < |rules| ==>
              contexts[i].Value() ==
                HandleIfSet(rules[i].name, rules[i].listener.onEdge, edge, old(contexts[i].Value()))
  {
    for i := 0 to |rules|
      invariant forall j :: 0 <= j < i ==>
                  contexts[j].Value() ==
                    HandleIfSet(rules[j].name, rules[j].listener.onEdge, edge, old(contexts[j].Value()))
      invariant forall j :: i <= j < |rules| ==> contexts[j].Value() == old(contexts[j].Value())
    {
      if rules[i].listener.onEdge.Some? {
        contexts[i].Invoke(rules[i].listener.onEdge.value, edge);
      }
    }
  }

  method DispatchGraph<S, M>(g: WorkflowGraph, rules: seq<LocalRule<S, M>>, contexts: seq<RuleContext<S, M>>)
    requires Contexts(rules, contexts)
    modifies set c | c in contexts
    ensures forall i :: 0 <= i < |rules| ==>
              contexts[i].Value() == HandleIfSet(rules[i].name, rules[i].listener.onGraph, g, old(contexts[i].Value()))
  {
    for i := 0 to |rules|
      invariant forall j :: 0 <= j < i ==>
                  contexts[j].Value() ==
                    HandleIfSet(rules[j].name, rules[j].listener.onGraph, g, old(contexts[j].Value()))
      invariant forall j :: i <= j < |rules| ==> contexts[j].Value() == old(contexts[j].Value())
    {
      if rules[i].listener.onGraph.Some? {
        contexts[i].Invoke(rules[i].listener.onGraph.value, g);
      }
    }
  }

  method Drain<S, M>(g: WorkflowGraph, rules: seq<LocalRule<S, M>>, contexts: seq<RuleContext<S, M>>,
                     ghost order: seq<string>)
    returns (out: seq<Finding<M>>)
    requires Contexts(rules, contexts)
    requires forall id :: id in order ==> id in g.Nodes
    requires forall i :: 0 <= i < |rules| ==> contexts[i].findings == Alone(g, rules[i], order)
    modifies set c | c in contexts
    ensures out == AllAlone(g, rules, order)
  {
    out := [];
    for i := 0 to |rules|
      invariant out == AllAlone(g, rules[..i], order)
      invariant forall j :: i <= j < |rules| ==> contexts[j].findings == old(contexts[j].findings)
    {
      assert rules[..i + 1][..i] == rules[..i];
      var fs := contexts[i].Findings();
      out := out + fs;
    }
    assert rules[..|rules|] == rules;
  }

  /**
   * The single interleaved walk reports, rule after rule, exactly what each rule would report walking alone in the same
   * node order.
   */
  method Walk<S, M>(g: WorkflowGraph, rules: seq<LocalRule<S, M>>) returns (out: seq<Finding<M>>)
    ensures rules == [] || g.Nodes == map[] ==> out == []
    ensures rules != [] && g.Nodes != map[] ==>
              exists order: seq<string> ::
                multiset(order) == multiset(g.Nodes.Keys) && (forall id :: id in order ==> id in g.Nodes)
                && out == AllAlone(g, rules, order) && out == Shares(g, rules, order)
  {
    if |rules| == 0 || |g.Nodes| == 0 {
      return [];
    }
    var contexts := NewContexts(rules);
    var order := Keys(g.Nodes.Keys);
    for i := 0 to |order|
      invariant forall j :: 0 <= j < |rules| ==> contexts[j].Value() == AfterNodes(g, rules[j], order[..i])
    {
      assert order[..i + 1][..i] == order[..i];
      DispatchNode(rules, contexts, g.Nodes[order[i]]);
    }
    assert order[..|order|] == order;
    for i := 0 to |g.Edges|
      invariant forall j :: 0 <= j < |rules| ==>
                  contexts[j].Value() == AfterEdges(rules[j], g.Edges[..i], AfterNodes(g, rules[j], order))
    {
      assert g.Edges[..i + 1][..i] == g.Edges[..i];
      DispatchEdge(rules, contexts, g.Edges[i]);
    }
    assert g.Edges[..|g.Edges|] == g.Edges;
    DispatchGraph(g, rules, contexts);
    out := Drain(g, rules, contexts, order);
    AllAloneAreOwed(g, rules, order);
  }

  /** A rule's share of the shared walk does not depend on which other rules take part. */
  lemma {:induction false} ShareIsIndependent<S, M>(g: WorkflowGraph, before: seq<LocalRule<S, M>>, r: LocalRule<S, M>,
                                                    after: seq<LocalRule<S, M>>, order: seq<string>)
    requires forall id :: id in order ==> id in g.Nodes
    ensures AllAlone(g, before + [r] + after, order)
         == AllAlone(g, before, order) + AllAlone(g, [r], order) + AllAlone(g, after, order)
  {
    var all := before + [r] + after;
    if after == [] {
      assert all == before + [r] && all[..|all| - 1] == before;
      assert [r][..0] == [];
    } else {
      var n := |after| - 1;
      ShareIsIndependent(g, before, r, after[..n], order);
      assert all[..|all| - 1] == before + [r] + after[..n];
    }
  }
}
