/** pii_leak_scanner and prompt_injection_sink: searches against the edges from every sink. */
module ReverseSearch {
  import opened Domain
  import opened Paths

  /** A flow from one node into another. */
  datatype Flow = Flow(source: string, sink: string)

  type FlowFinding = Finding<Flow>

  // ----- The reverse adjacency shared by the path rules

  function Predecessors(reverse: map<string, seq<Edge>>, v: string): seq<Edge> {
    if v in reverse then reverse[v] else []
  }

  ghost predicate IsReverse(reverse: map<string, seq<Edge>>, edges: seq<Edge>) {
    forall v :: Predecessors(reverse, v) == IncomingEdges(edges, v)
  }

  lemma IncomingSnoc(edges: seq<Edge>, e: Edge, v: string)
    ensures IncomingEdges(edges + [e], v) == IncomingEdges(edges, v) + (if e.To == v then [e] else [])
  {
    if edges == [] {
      assert edges + [e] == [e];
    } else {
      IncomingSnoc(edges[1..], e, v);
      assert (edges + [e])[1..] == edges[1..] + [e];
    }
  }

  lemma IncomingEdgeAt(edges: seq<Edge>, v: string, i: nat)
    requires i < |IncomingEdges(edges, v)|
    ensures IncomingEdges(edges, v)[i] in edges && IncomingEdges(edges, v)[i].To == v
  {
    IncomingEdgesAre(edges, v);
    assert IncomingEdges(edges, v)[i] in IncomingEdges(edges, v);
  }

  /** The incoming edges of every node, in edge order. */
  method BuildReverseAdjacency(g: WorkflowGraph) returns (reverse: map<string, seq<Edge>>)
    ensures IsReverse(reverse, g.Edges)
  {
    reverse := map[];
    for i := 0 to |g.Edges|
      invariant IsReverse(reverse, g.Edges[..i])
    {
      var e := g.Edges[i];
      ghost var was := reverse;
      reverse := reverse[e.To := Predecessors(reverse, e.To) + [e]];
      assert g.Edges[..i + 1] == g.Edges[..i] + [e];
      forall v ensures Predecessors(reverse, v) == IncomingEdges(g.Edges[..i + 1], v) {
        IncomingSnoc(g.Edges[..i], e, v);
        assert Predecessors(was, v) == IncomingEdges(g.Edges[..i], v);
        assert Predecessors(reverse, v) == if v == e.To then Predecessors(was, v) + [e] else Predecessors(was, v);
      }
    }
    assert g.Edges[..|g.Edges|] == g.Edges;
  }

  // ----- Exactly one finding for each pair

  ghost predicate Reported(findings: seq<FlowFinding>, p: string, k: string) {
    exists f :: f in findings && f.Message == Flow(p, k)
  }

  ghost predicate OncePerPair(findings: seq<FlowFinding>) {
    forall i, j :: 0 <= i < j < |findings| ==> findings[i].Message != findings[j].Message
  }

  ghost predicate AllTo(findings: seq<FlowFinding>, k: string) {
    forall f :: f in findings ==> f.Message.sink == k
  }

  lemma ReportedConcat(a: seq<FlowFinding>, b: seq<FlowFinding>)
    ensures forall p, k :: Reported(a + b, p, k) <==> Reported(a, p, k) || Reported(b, p, k)
  {
    forall p, k ensures Reported(a + b, p, k) <==> Reported(a, p, k) || Reported(b, p, k) {
      if f :| f in a && f.Message == Flow(p, k) {
        assert f in a + b;
      }
      if f :| f in b && f.Message == Flow(p, k) {
        assert f in a + b;
      }
    }
  }

  /** Findings of different sinks cannot repeat a pair. */
  lemma OncePerPairConcat(a: seq<FlowFinding>, b: seq<FlowFinding>, k: string)
    requires OncePerPair(a) && OncePerPair(b) && AllTo(b, k)
    requires forall f :: f in a ==> f.Message.sink != k
    ensures OncePerPair(a + b)
  {
    forall f | f in a ensures forall x :: x in b ==> f.Message != x.Message {}
  }

  /** Nodes left the queue have their sources reported, except the sink itself. */
  ghost predicate ReportsVisited(findings: seq<FlowFinding>, sources: set<string>, visited: set<string>, k: string) {
    && AllTo(findings, k) && OncePerPair(findings)
    && forall p :: Reported(findings, p, k) <==> p in sources && p in visited && p != k
  }

  lemma ReportNew(findings: seq<FlowFinding>, f: FlowFinding, sources: set<string>, visited: set<string>, k: string)
    requires ReportsVisited(findings, sources, visited, k)
    requires f.Message.sink == k && f.Message.source in sources && f.Message.source !in visited && k in visited
    ensures ReportsVisited(findings + [f], sources, visited + {f.Message.source}, k)
  {
    var p := f.Message.source;
    assert !Reported(findings, p, k);
    ReportedConcat(findings, [f]);
    assert f in [f];
  }

  // ----- The search both rules make, over a relation of their own

  ghost predicate Backwards(r: set<(string, string)>, sources: set<string>, k: string, reached: set<string>,
                            done: set<string>, queue: seq<string>, findings: seq<FlowFinding>) {
    && Explores(Inverse(r), k, reached, done)
    && reached == done + (set v | v in queue)
    && ReportsVisited(findings, sources, reached, k)
  }

  lemma BackwardsStep(r: set<(string, string)>, sources: set<string>, k: string, reached: set<string>,
                      done: set<string>, queue: seq<string>, findings: seq<FlowFinding>, current: string,
                      f: FlowFinding)
    requires Backwards(r, sources, k, reached, done, [current] + queue, findings)
    requires f.Message.sink == k && f.Message.source !in reached && (f.Message.source, current) in r
    ensures var p := f.Message.source;
            Backwards(r, sources, k, reached + {p}, done, [current] + (queue + [p]),
                      if p in sources then findings + [f] else findings)
  {
    var p := f.Message.source;
    assert current in [current] + queue;
    assert (current, p) in Inverse(r);
    ExploreStep(Inverse(r), k, reached, done, current, p);
    if p in sources {
      ReportNew(findings, f, sources, reached, k);
    }
  }

  lemma BackwardsDone(r: set<(string, string)>, sources: set<string>, k: string, reached: set<string>,
                      done: set<string>, queue: seq<string>, findings: seq<FlowFinding>, current: string)
    requires Backwards(r, sources, k, reached, done, [current] + queue, findings)
    requires forall p :: (p, current) in r ==> p in reached
    ensures Backwards(r, sources, k, reached, done + {current}, queue, findings)
  {
    assert current in [current] + queue;
    forall p | p in Inverse(r) && p.0 == current ensures p.1 in reached {
      assert (p.1, current) in r;
    }
  }

  /** When the queue is empty the sources reported are exactly those that lead to the sink. */
  lemma BackwardsAll(r: set<(string, string)>, sources: set<string>, k: string, reached: set<string>,
                     findings: seq<FlowFinding>)
    requires Backwards(r, sources, k, reached, reached, [], findings)
    ensures forall p :: Reported(findings, p, k) <==> p in sources && p != k && Reaches(r, p, k)
  {
    ExploredAll(Inverse(r), k, reached);
    forall p ensures Reported(findings, p, k) <==> p in sources && p != k && Reaches(r, p, k) {
      ReachesInverse(r, p, k);
    }
  }

  // ----- Personal data into external tools

  const PII_RULE := "pii_leak_scanner"

  function ToolCategory(n: Node): string {
    var c := GetToolCategory(n);
    if c != "" then c else "api"
  }

  predicate IsRAGSource(n: Node) {
    n.Type == Tool && (("has_pii" in n.Config && n.Config["has_pii"] == Bool(true)) || ToolCategory(n) == "rag")
  }

  datatype SourceKind = RAG | Hint

  function PIIFinding(kind: SourceKind, p: string, k: string): FlowFinding {
    if kind == RAG then NewFinding(PII_RULE, Warning, k, Flow(p, k), 0.6)
    else NewFinding(PII_RULE, Info, k, Flow(p, k), 0.3)
  }

  /** Edges that leave an existing node other than a Human one. */
  ghost function Ungated(g: WorkflowGraph): set<(string, string)> {
    set e | e in g.Edges && e.From in g.Nodes && g.Nodes[e.From].Type != Human :: (e.From, e.To)
  }

  /** Nodes whose name holds a hint keyword are supplied as a predicate; a RAG source is never a hint. */
  method IndexSources(sources: seq<Node>, hint: Node -> bool) returns (index: map<string, SourceKind>)
    ensures forall p :: p in index <==> exists n :: n in sources && n.ID == p && (IsRAGSource(n) || hint(n))
    ensures forall p :: p in index ==> exists n :: n in sources && n.ID == p && (index[p] == RAG <==> IsRAGSource(n))
  {
    index := map[];
    for i := 0 to |sources|
      invariant forall p :: p in index <==> exists n :: n in sources[..i] && n.ID == p && (IsRAGSource(n) || hint(n))
      invariant forall p :: p in index ==>
                  exists n :: n in sources[..i] && n.ID == p && (index[p] == RAG <==> IsRAGSource(n))
    {
      var n := sources[i];
      assert forall x :: x in sources[..i + 1] <==> x in sources[..i] || x == n;
      if IsRAGSource(n) {
        index := index[n.ID := RAG];
      } else if hint(n) {
        index := index[n.ID := Hint];
      }
    }
    assert sources[..|sources|] == sources;
  }

  ghost predicate PIIForms(index: map<string, SourceKind>, k: string, findings: seq<FlowFinding>) {
    forall f :: f in findings ==>
      f.Message.source in index && f == PIIFinding(index[f.Message.source], f.Message.source, k)
  }

  /** `visited` also holds the Human nodes met; `reached` leaves them out. */
  ghost predicate PIIState(g: WorkflowGraph, index: map<string, SourceKind>, k: string, visited: set<string>,
                           reached: set<string>, done: set<string>, queue: seq<string>, findings: seq<FlowFinding>) {
    && Backwards(Ungated(g), index.Keys, k, reached, done, queue, findings)
    && reached <= visited <= g.Nodes.Keys + {k}
    && (forall v :: v in visited - reached ==> g.Nodes[v].Type == Human)
    && PIIForms(index, k, findings)
  }

  /** The sources reported for one sink are those with a path to it that no Human node interrupts. */
  method PIIFromSink(g: WorkflowGraph, reverse: map<string, seq<Edge>>, index: map<string, SourceKind>, k: string)
    returns (findings: seq<FlowFinding>)
    requires IsReverse(reverse, g.Edges)
    ensures AllTo(findings, k) && OncePerPair(findings)
    ensures forall p :: Reported(findings, p, k) <==> p in index && p != k && Reaches(Ungated(g), p, k)
    ensures PIIForms(index, k, findings)
  {
    var visited := {k};
    var queue := [k];
    ghost var reached: set<string>, done: set<string> := {k}, {};
    findings := [];
    ExploresStart(Inverse(Ungated(g)), k);
    while queue != []
      invariant PIIState(g, index, k, visited, reached, done, queue, findings)
      decreases g.Nodes.Keys + {k} - visited, |queue|
    {
      var current := queue[0];
      queue := queue[1..];
      assert PIIState(g, index, k, visited, reached, done, [current] + queue, findings);
      visited, reached, queue, findings :=
        PIIExpand(g, reverse, index, k, visited, reached, done, queue, findings, current);
      done := done + {current};
    }
    BackwardsAll(Ungated(g), index.Keys, k, reached, findings);
  }

  method PIIExpand(g: WorkflowGraph, reverse: map<string, seq<Edge>>, index: map<string, SourceKind>, k: string,
                   visited0: set<string>, ghost reached0: set<string>, ghost done: set<string>, queue0: seq<string>,
                   findings0: seq<FlowFinding>, current: string)
    returns (visited: set<string>, ghost reached: set<string>, queue: seq<string>, findings: seq<FlowFinding>)
    requires IsReverse(reverse, g.Edges)
    requires PIIState(g, index, k, visited0, reached0, done, [current] + queue0, findings0)
    ensures PIIState(g, index, k, visited, reached, done + {current}, queue, findings)
    ensures visited0 <= visited && (visited0 == visited ==> queue == queue0)
  {
    visited, reached, queue, findings := visited0, reached0, queue0, findings0;
    var incoming := Predecessors(reverse, current);
    for i := 0 to |incoming|
      invariant PIIState(g, index, k, visited, reached, done, [current] + queue, findings)
      invariant visited0 <= visited && (visited0 == visited ==> queue == queue0)
      invariant forall j :: 0 <= j < i && (incoming[j].From, current) in Ungated(g) ==> incoming[j].From in reached
    {
      var pred := incoming[i].From;
      IncomingEdgeAt(g.Edges, current, i);
      if pred !in visited && pred in g.Nodes {
        if g.Nodes[pred].Type == Human {
          visited := visited + {pred};
        } else {
          PIIStep(g, index, k, visited, reached, done, queue, findings, current, incoming[i]);
          visited := visited + {pred};
          reached := reached + {pred};
          if pred in index {
            findings := findings + [PIIFinding(index[pred], pred, k)];
          }
          queue := queue + [pred];
        }
      }
    }
    PIIDone(g, index, k, visited, reached, done, queue, findings, current, incoming);
  }

  lemma PIIStep(g: WorkflowGraph, index: map<string, SourceKind>, k: string, visited: set<string>, reached: set<string>,
                done: set<string>, queue: seq<string>, findings: seq<FlowFinding>, current: string, e: Edge)
    requires PIIState(g, index, k, visited, reached, done, [current] + queue, findings)
    requires e in g.Edges && e.To == current && e.From !in visited && e.From in g.Nodes && g.Nodes[e.From].Type != Human
    ensures PIIState(g, index, k, visited + {e.From}, reached + {e.From}, done, [current] + (queue + [e.From]),
                     if e.From in index then findings + [PIIFinding(index[e.From], e.From, k)] else findings)
  {
    assert (e.From, e.To) in Ungated(g);
    var kind := if e.From in index then index[e.From] else Hint;
    BackwardsStep(Ungated(g), index.Keys, k, reached, done, queue, findings, current, PIIFinding(kind, e.From, k));
  }

  lemma PIIDone(g: WorkflowGraph, index: map<string, SourceKind>, k: string, visited: set<string>, reached: set<string>,
                done: set<string>, queue: seq<string>, findings: seq<FlowFinding>, current: string, incoming: seq<Edge>)
    requires PIIState(g, index, k, visited, reached, done, [current] + queue, findings)
    requires incoming == IncomingEdges(g.Edges, current)
    requires forall j :: 0 <= j < |incoming| && (incoming[j].From, current) in Ungated(g) ==>
               incoming[j].From in reached
    ensures PIIState(g, index, k, visited, reached, done + {current}, queue, findings)
  {
    IncomingEdgesAre(g.Edges, current);
    forall p | (p, current) in Ungated(g) ensures p in reached {
      var e :| e in g.Edges && e.From == p && e.To == current && e.From in g.Nodes && g.Nodes[e.From].Type != Human;
      var j :| 0 <= j < |incoming| && incoming[j] == e;
    }
    BackwardsDone(Ungated(g), index.Keys, k, reached, done, queue, findings, current);
  }

  ghost predicate SinkIDs(sinks: seq<Node>, k: string) {
    exists n :: n in sinks && n.ID == k
  }

  /** What the rule says of a pair: a Warning for a source that is RAG, Info for one only known by its name. */
  ghost predicate PIITold(sources: seq<Node>, f: FlowFinding) {
    && f.RuleName == "pii_leak_scanner" && f.NodeID == f.Message.sink
    && exists n :: n in sources && n.ID == f.Message.source
         && if IsRAGSource(n) then f.Severity == Warning && f.Confidence == 0.6
            else f.Severity == Info && f.Confidence == 0.3
  }

  /** A RAG source is a Tool flagged as holding personal data or of category "rag". */
  lemma RAGSourcesAre(n: Node)
    ensures IsRAGSource(n) <==>
            n.Type == Tool
            && (("has_pii" in n.Config && n.Config["has_pii"] == Bool(true)) || GetToolCategory(n) == "rag")
  {}

  lemma FormsAreTold(sources: seq<Node>, index: map<string, SourceKind>, f: FlowFinding)
    requires PIIForms(index, f.Message.sink, [f])
    requires forall p :: p in index ==> exists n :: n in sources && n.ID == p && (index[p] == RAG <==> IsRAGSource(n))
    ensures PIITold(sources, f)
  {
    assert f in [f];
    var n :| n in sources && n.ID == f.Message.source && (index[f.Message.source] == RAG <==> IsRAGSource(n));
  }

  /**
   * The pair (p, k) is reported, and then exactly once, when p is an indexed source other than the sink k and some path
   * from p to k has only existing, non-Human nodes before k.
   */
  method RunPII(g: WorkflowGraph, sources: seq<Node>, sinks: seq<Node>, hint: Node -> bool)
    returns (findings: seq<FlowFinding>, index: map<string, SourceKind>)
    requires forall i, j :: 0 <= i < j < |sinks| ==> sinks[i].ID != sinks[j].ID
    ensures forall p :: p in index <==> exists n :: n in sources && n.ID == p && (IsRAGSource(n) || hint(n))
    ensures forall p :: p in index ==> exists n :: n in sources && n.ID == p && (index[p] == RAG <==> IsRAGSource(n))
    ensures forall p, k :: Reported(findings, p, k) <==>
              SinkIDs(sinks, k) && p in index && p != k && Reaches(Ungated(g), p, k)
    ensures OncePerPair(findings)
    ensures forall f :: f in findings ==> PIIForms(index, f.Message.sink, [f])
    ensures forall f :: f in findings ==> PIITold(sources, f)
  {
    var reverse := BuildReverseAdjacency(g);
    index := IndexSources(sources, hint);
    findings := [];
    for i := 0 to |sinks|
      invariant forall p, k :: Reported(findings, p, k) <==>
                  SinkIDs(sinks[..i], k) && p in index && p != k && Reaches(Ungated(g), p, k)
      invariant OncePerPair(findings)
      invariant forall f :: f in findings ==> PIIForms(index, f.Message.sink, [f])
    {
      var k := sinks[i].ID;
      var fs := PIIFromSink(g, reverse, index, k);
      assert forall n :: n in sinks[..i + 1] <==> n in sinks[..i] || n == sinks[i];
      assert !SinkIDs(sinks[..i], k);
      forall f | f in findings ensures f.Message.sink != k {
        assert Reported(findings, f.Message.source, f.Message.sink);
      }
      OncePerPairConcat(findings, fs, k);
      ReportedConcat(findings, fs);
      NotElsewhere(fs, k);
      findings := findings + fs;
    }
    assert sinks[..|sinks|] == sinks;
    forall f | f in findings ensures PIITold(sources, f) {
      FormsAreTold(sources, index, f);
    }
  }

  lemma NotElsewhere(fs: seq<FlowFinding>, k: string)
    requires AllTo(fs, k)
    ensures forall p, x :: Reported(fs, p, x) ==> x == k
  {}

  // ----- User input into prompt templates

  const INJECTION_RULE := "prompt_injection_sink"

  /** What the sink's configuration says: the severity and confidence of its findings, or that it is no sink. */
  datatype SinkClass = SinkClass(severity: Severity, confidence: real)

  function InjectionFinding(c: SinkClass, p: string, k: string): FlowFinding {
    NewFinding(INJECTION_RULE, c.severity, k, Flow(p, k), c.confidence)
  }

  ghost predicate InjectionForms(c: SinkClass, k: string, findings: seq<FlowFinding>) {
    forall f :: f in findings ==> f == InjectionFinding(c, f.Message.source, k)
  }

  ghost predicate InjectionState(g: WorkflowGraph, sources: set<string>, k: string, c: SinkClass, visited: set<string>,
                                 done: set<string>, queue: seq<string>, findings: seq<FlowFinding>) {
    && Backwards(RawLinks(g), sources, k, visited, done, queue, findings)
    && visited <= Origins(g) + {k}
    && InjectionForms(c, k, findings)
  }

  ghost function Origins(g: WorkflowGraph): set<string> {
    set e | e in g.Edges :: e.From
  }

  /** The ungated search follows every edge, dangling ones included. */
  method InjectionFromSink(g: WorkflowGraph, reverse: map<string, seq<Edge>>, sources: set<string>, k: string,
                           c: SinkClass)
    returns (findings: seq<FlowFinding>)
    requires IsReverse(reverse, g.Edges)
    ensures AllTo(findings, k) && OncePerPair(findings)
    ensures forall p :: Reported(findings, p, k) <==> p in sources && p != k && Reaches(RawLinks(g), p, k)
    ensures InjectionForms(c, k, findings)
  {
    var visited := {k};
    var queue := [k];
    ghost var done: set<string> := {};
    findings := [];
    ExploresStart(Inverse(RawLinks(g)), k);
    while queue != []
      invariant InjectionState(g, sources, k, c, visited, done, queue, findings)
      decreases Origins(g) + {k} - visited, |queue|
    {
      var current := queue[0];
      queue := queue[1..];
      assert InjectionState(g, sources, k, c, visited, done, [current] + queue, findings);
      visited, queue, findings := InjectionExpand(g, reverse, sources, k, c, visited, done, queue, findings, current);
      done := done + {current};
    }
    BackwardsAll(RawLinks(g), sources, k, visited, findings);
  }

  /** A predecessor not visited yet is visited, enqueued and, if it is a source, reported. */
  method InjectionMeet(g: WorkflowGraph, sources: set<string>, k: string, c: SinkClass, visited0: set<string>,
                       ghost done: set<string>, queue0: seq<string>, findings0: seq<FlowFinding>,
                       ghost current: string, e: Edge)
    returns (visited: set<string>, queue: seq<string>, findings: seq<FlowFinding>)
    requires InjectionState(g, sources, k, c, visited0, done, [current] + queue0, findings0)
    requires e in g.Edges && e.To == current
    ensures InjectionState(g, sources, k, c, visited, done, [current] + queue, findings)
    ensures e.From in visited && visited0 <= visited && (visited0 == visited ==> queue == queue0)
  {
    var pred := e.From;
    if pred in visited0 {
      return visited0, queue0, findings0;
    }
    InjectionStep(g, sources, k, c, visited0, done, queue0, findings0, current, e);
    visited, queue := visited0 + {pred}, queue0 + [pred];
    findings := if pred in sources then findings0 + [InjectionFinding(c, pred, k)] else findings0;
  }

  method InjectionExpand(g: WorkflowGraph, reverse: map<string, seq<Edge>>, sources: set<string>, k: string,
                         c: SinkClass, visited0: set<string>, ghost done: set<string>, queue0: seq<string>,
                         findings0: seq<FlowFinding>, current: string)
    returns (visited: set<string>, queue: seq<string>, findings: seq<FlowFinding>)
    requires IsReverse(reverse, g.Edges)
    requires InjectionState(g, sources, k, c, visited0, done, [current] + queue0, findings0)
    ensures InjectionState(g, sources, k, c, visited, done + {current}, queue, findings)
    ensures visited0 <= visited && (visited0 == visited ==> queue == queue0)
  {
    visited, queue, findings := visited0, queue0, findings0;
    var incoming := Predecessors(reverse, current);
    for i := 0 to |incoming|
      invariant InjectionState(g, sources, k, c, visited, done, [current] + queue, findings)
      invariant visited0 <= visited && (visited0 == visited ==> queue == queue0)
      invariant forall j :: 0 <= j < i ==> incoming[j].From in visited
    {
      IncomingEdgeAt(g.Edges, current, i);
      visited, queue, findings := InjectionMeet(g, sources, k, c, visited, done, queue, findings, current, incoming[i]);
    }
    InjectionDone(g, sources, k, c, visited, done, queue, findings, current, incoming);
  }

  lemma InjectionStep(g: WorkflowGraph, sources: set<string>, k: string, c: SinkClass, visited: set<string>,
                      done: set<string>, queue: seq<string>, findings: seq<FlowFinding>, current: string, e: Edge)
    requires InjectionState(g, sources, k, c, visited, done, [current] + queue, findings)
    requires e in g.Edges && e.To == current && e.From !in visited
    ensures InjectionState(g, sources, k, c, visited + {e.From}, done, [current] + (queue + [e.From]),
                           if e.From in sources then findings + [InjectionFinding(c, e.From, k)] else findings)
  {
    assert (e.From, e.To) in RawLinks(g);
    BackwardsStep(RawLinks(g), sources, k, visited, done, queue, findings, current, InjectionFinding(c, e.From, k));
  }

  lemma InjectionDone(g: WorkflowGraph, sources: set<string>, k: string, c: SinkClass, visited: set<string>,
                      done: set<string>, queue: seq<string>, findings: seq<FlowFinding>, current: string,
                      incoming: seq<Edge>)
    requires InjectionState(g, sources, k, c, visited, done, [current] + queue, findings)
    requires incoming == IncomingEdges(g.Edges, current)
    requires forall j :: 0 <= j < |incoming| ==> incoming[j].From in visited
    ensures InjectionState(g, sources, k, c, visited, done + {current}, queue, findings)
  {
    IncomingEdgesAre(g.Edges, current);
    forall p | (p, current) in RawLinks(g) ensures p in visited {
      var e :| e in g.Edges && e.From == p && e.To == current;
      var j :| 0 <= j < |incoming| && incoming[j] == e;
    }
    BackwardsDone(RawLinks(g), sources, k, visited, done, queue, findings, current);
  }

  ghost predicate ClassifiedSink(sinks: seq<Node>, classify: Node -> Option<SinkClass>, k: string) {
    exists n :: n in sinks && n.ID == k && classify(n).Some?
  }

  ghost predicate InjectionFindingOf(sinks: seq<Node>, classify: Node -> Option<SinkClass>, f: FlowFinding) {
    exists n :: n in sinks && n.ID == f.Message.sink && classify(n).Some?
      && f == InjectionFinding(classify(n).value, f.Message.source, f.Message.sink)
  }

  /** What the rule says of a pair: as severe and as sure as the sink's configuration makes it. */
  ghost predicate InjectionTold(sinks: seq<Node>, classify: Node -> Option<SinkClass>, f: FlowFinding) {
    && f.RuleName == "prompt_injection_sink" && f.NodeID == f.Message.sink
    && exists n :: n in sinks && n.ID == f.Message.sink && classify(n) == Some(SinkClass(f.Severity, f.Confidence))
  }

  /** As RunPII, over the raw edges and without gates; the sink's own configuration decides the severity. */
  method RunInjection(g: WorkflowGraph, sources: seq<Node>, sinks: seq<Node>, classify: Node -> Option<SinkClass>)
    returns (findings: seq<FlowFinding>)
    requires forall i, j :: 0 <= i < j < |sinks| ==> sinks[i].ID != sinks[j].ID
    ensures forall p, k :: Reported(findings, p, k) <==>
              ClassifiedSink(sinks, classify, k) && (exists n :: n in sources && n.ID == p)
              && p != k && Reaches(RawLinks(g), p, k)
    ensures OncePerPair(findings)
    ensures forall f :: f in findings ==> InjectionFindingOf(sinks, classify, f)
    ensures forall f :: f in findings ==> InjectionTold(sinks, classify, f)
  {
    var reverse := BuildReverseAdjacency(g);
    var sourceIDs := set n | n in sources :: n.ID;
    findings := [];
    for i := 0 to |sinks|
      invariant forall p, k :: Reported(findings, p, k) <==>
                  ClassifiedSink(sinks[..i], classify, k) && p in sourceIDs && p != k && Reaches(RawLinks(g), p, k)
      invariant OncePerPair(findings)
      invariant forall f :: f in findings ==> InjectionFindingOf(sinks, classify, f)
    {
      var k := sinks[i].ID;
      assert forall n :: n in sinks[..i + 1] <==> n in sinks[..i] || n == sinks[i];
      if classify(sinks[i]).Some? {
        var c := classify(sinks[i]).value;
        var fs := InjectionFromSink(g, reverse, sourceIDs, k, c);
        assert !ClassifiedSink(sinks[..i], classify, k);
        forall f | f in findings ensures f.Message.sink != k {
          assert Reported(findings, f.Message.source, f.Message.sink);
        }
        OncePerPairConcat(findings, fs, k);
        ReportedConcat(findings, fs);
        NotElsewhere(fs, k);
        findings := findings + fs;
      }
    }
    assert sinks[..|sinks|] == sinks;
  }
}
