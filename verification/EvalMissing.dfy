/** eval_missing: a forward search over (node, crossed-a-Condition) states from every LLM node. */
module EvalMissing {
  import opened Domain
  import opened Paths

  const RULE := "eval_missing"

  datatype EvalMessage = EvalMessage(source: string, sink: string, gated: bool)

  type EvalFinding = Finding<EvalMessage>

  /** A node together with whether a Condition has been crossed on the way to it. */
  type State = (string, bool)

  // ----- Declarative vocabulary

  ghost function SinkIDs(sinks: seq<Node>): set<string> {
    set s | s in sinks :: s.ID
  }

  /**
   * Edges a dangerous flow may take: into an existing node that is
   * not Human, and not out of a sink other than the source.
   */
  ghost function Flow(g: WorkflowGraph, src: string, sinks: seq<Node>): set<(string, string)> {
    set e | e in g.Edges && e.To in g.Nodes && g.Nodes[e.To].Type != Human
            && !(e.From in SinkIDs(sinks) && e.From != src)
      :: (e.From, e.To)
  }

  /** The same without entering a Condition node. */
  ghost function DirectFlow(g: WorkflowGraph, src: string, sinks: seq<Node>): set<(string, string)> {
    set p | p in Flow(g, src, sinks) && g.Nodes[p.1].Type != Condition
  }

  ghost predicate Dangerous(g: WorkflowGraph, src: string, sinks: seq<Node>, k: string) {
    k in SinkIDs(sinks) && k != src && Reaches(Flow(g, src, sinks), src, k)
  }

  ghost predicate Ungated(g: WorkflowGraph, src: string, sinks: seq<Node>, k: string) {
    Reaches(DirectFlow(g, src, sinks), src, k)
  }

  /** The finding for a pair: Critical when some walk avoids every Condition, Warning otherwise. */
  function BuildFinding(source: string, sink: string, viaCondition: bool): EvalFinding {
    if viaCondition then NewFinding(RULE, Warning, sink, EvalMessage(source, sink, true), 0.6)
    else NewFinding(RULE, Critical, sink, EvalMessage(source, sink, false), 0.9)
  }

  // ----- The product relation

  ghost function Product(g: WorkflowGraph, src: string, sinks: seq<Node>): set<(State, State)> {
    set p, f: bool | p in Flow(g, src, sinks) :: ((p.0, f), (p.1, f || g.Nodes[p.1].Type == Condition))
  }

  ghost predicate ReachesEither(g: WorkflowGraph, src: string, sinks: seq<Node>, a: string, b: string) {
    exists f: bool :: Reaches(Product(g, src, sinks), (a, false), (b, f))
  }

  lemma {:induction false} ProductWalk(g: WorkflowGraph, src: string, sinks: seq<Node>, w: seq<string>, direct: bool)
    requires IsWalk(if direct then DirectFlow(g, src, sinks) else Flow(g, src, sinks), w)
    ensures direct ==> Reaches(Product(g, src, sinks), (w[0], false), (w[|w| - 1], false))
    ensures ReachesEither(g, src, sinks, w[0], w[|w| - 1])
  {
    var r := Product(g, src, sinks);
    if |w| == 1 {
      ReachesSelf(r, (w[0], false));
    } else {
      var n := |w| - 1;
      var v := w[..n];
      assert (w[n - 1], w[n - 1 + 1]) in Flow(g, src, sinks);
      WalkSegment(if direct then DirectFlow(g, src, sinks) else Flow(g, src, sinks), w, 0, n - 1);
      assert v == w[0..n - 1 + 1];
      ProductWalk(g, src, sinks, v, direct);
      var f: bool :| Reaches(r, (w[0], false), (v[n - 1], f)) && (direct ==> !f);
      var t := f || g.Nodes[w[n]].Type == Condition;
      assert ((w[n - 1], f), (w[n], t)) in r;
      ReachesStep(r, (w[0], false), (w[n - 1], f), (w[n], t));
      if direct {
        assert (w[n - 1], w[n - 1 + 1]) in DirectFlow(g, src, sinks);
      }
    }
  }

  lemma {:induction false} WalkInProduct(g: WorkflowGraph, src: string, sinks: seq<Node>, w: seq<State>)
    requires IsWalk(Product(g, src, sinks), w) && w[0].1 == false
    ensures Reaches(Flow(g, src, sinks), w[0].0, w[|w| - 1].0)
    ensures !w[|w| - 1].1 ==> Reaches(DirectFlow(g, src, sinks), w[0].0, w[|w| - 1].0)
  {
    var any, direct := Flow(g, src, sinks), DirectFlow(g, src, sinks);
    if |w| == 1 {
      ReachesSelf(any, w[0].0);
      ReachesSelf(direct, w[0].0);
    } else {
      var n := |w| - 1;
      var v := w[..n];
      assert (w[n - 1], w[n - 1 + 1]) in Product(g, src, sinks);
      WalkSegment(Product(g, src, sinks), w, 0, n - 1);
      assert v == w[0..n - 1 + 1];
      WalkInProduct(g, src, sinks, v);
      ReachesStep(any, w[0].0, v[n - 1].0, w[n].0);
      if !w[n].1 {
        ReachesStep(direct, w[0].0, v[n - 1].0, w[n].0);
      }
    }
  }

  /** Product reachability is two plain reachability questions. */
  lemma ProductReachability(g: WorkflowGraph, src: string, sinks: seq<Node>, k: string)
    ensures Reaches(Product(g, src, sinks), (src, false), (k, false)) <==> Reaches(DirectFlow(g, src, sinks), src, k)
    ensures ReachesEither(g, src, sinks, src, k) <==> Reaches(Flow(g, src, sinks), src, k)
  {
    var r := Product(g, src, sinks);
    if Reaches(DirectFlow(g, src, sinks), src, k) {
      var w :| WalkFromTo(DirectFlow(g, src, sinks), w, src, k);
      ProductWalk(g, src, sinks, w, true);
    }
    if Reaches(Flow(g, src, sinks), src, k) {
      var w :| WalkFromTo(Flow(g, src, sinks), w, src, k);
      ProductWalk(g, src, sinks, w, false);
    }
    forall f | Reaches(r, (src, false), (k, f))
      ensures Reaches(Flow(g, src, sinks), src, k) && (!f ==> Reaches(DirectFlow(g, src, sinks), src, k))
    {
      var w :| WalkFromTo(r, w, (src, false), (k, f));
      WalkInProduct(g, src, sinks, w);
    }
  }

  // ----- The search

  function Successors(forward: map<string, seq<string>>, v: string): seq<string> {
    if v in forward then forward[v] else []
  }

  ghost predicate HasEdge(edges: seq<Edge>, u: string, v: string) {
    exists e :: e in edges && e.From == u && e.To == v
  }

  ghost predicate IsForward(forward: map<string, seq<string>>, edges: seq<Edge>) {
    forall u, v :: v in Successors(forward, u) <==> HasEdge(edges, u, v)
  }

  method BuildForward(g: WorkflowGraph) returns (forward: map<string, seq<string>>)
    ensures IsForward(forward, g.Edges)
  {
    forward := map[];
    for i := 0 to |g.Edges|
      invariant IsForward(forward, g.Edges[..i])
    {
      var e := g.Edges[i];
      ghost var was := forward;
      forward := forward[e.From := Successors(forward, e.From) + [e.To]];
      assert g.Edges[..i + 1] == g.Edges[..i] + [e];
      forall u, v ensures v in Successors(forward, u) <==> HasEdge(g.Edges[..i + 1], u, v) {
        assert v in Successors(was, u) <==> HasEdge(g.Edges[..i], u, v);
        if HasEdge(g.Edges[..i], u, v) {
          var x :| x in g.Edges[..i] && x.From == u && x.To == v;
          assert x in g.Edges[..i + 1];
        }
        assert e in g.Edges[..i + 1];
      }
    }
    assert g.Edges[..|g.Edges|] == g.Edges;
  }

  ghost function AllStates(g: WorkflowGraph, src: string): set<State> {
    (set v | v in g.Nodes.Keys + {src} :: (v, false)) + (set v | v in g.Nodes.Keys + {src} :: (v, true))
  }

  /** `best` holds the sinks among the expanded states, and whether each was met only behind a Condition. */
  ghost predicate BestMatches(src: string, sinkIDs: set<string>, done: set<State>, best: map<string, bool>) {
    forall k ::
      && (k in best <==> k in sinkIDs && k != src && ((k, false) in done || (k, true) in done))
      && (k in best ==> (best[k] <==> (k, false) !in done))
  }

  ghost predicate Progress(g: WorkflowGraph, src: string, sinks: seq<Node>, visited: set<State>, done: set<State>,
                           queue: seq<State>) {
    && Explores(Product(g, src, sinks), (src, false), visited, done)
    && visited == done + (set x | x in queue)
    && visited <= AllStates(g, src)
  }

  /** What one more expanded state makes of `best`. */
  lemma BestStep(src: string, sinkIDs: set<string>, done: set<State>, best: map<string, bool>, cur: State)
    requires BestMatches(src, sinkIDs, done, best)
    ensures var best' := if cur.0 in sinkIDs && cur.0 != src && (cur.0 !in best || (best[cur.0] && !cur.1))
                         then best[cur.0 := cur.1] else best;
            BestMatches(src, sinkIDs, done + {cur}, best')
  {
    assert forall k, f: bool :: (k, f) in done + {cur} <==> (k, f) in done || (k == cur.0 && f == cur.1);
  }

  method Search(g: WorkflowGraph, forward: map<string, seq<string>>, src: string, sinks: seq<Node>,
                sinkIDs: set<string>)
    returns (best: map<string, bool>)
    requires IsForward(forward, g.Edges) && sinkIDs == SinkIDs(sinks)
    ensures forall k :: k in best <==> Dangerous(g, src, sinks, k)
    ensures forall k :: k in best ==> (best[k] <==> !Ungated(g, src, sinks, k))
  {
    var visited: set<State> := {(src, false)};
    var queue: seq<State> := [(src, false)];
    best := map[];
    ghost var done: set<State> := {};
    ExploresStart(Product(g, src, sinks), (src, false));
    while queue != []
      invariant Progress(g, src, sinks, visited, done, queue)
      invariant BestMatches(src, sinkIDs, done, best)
      decreases AllStates(g, src) - visited, |queue|
    {
      var cur := queue[0];
      queue := queue[1..];
      assert Progress(g, src, sinks, visited, done, [cur] + queue);
      if cur.0 in sinkIDs && cur.0 != src {
        BestStep(src, sinkIDs, done, best, cur);
        if cur.0 !in best || (best[cur.0] && !cur.1) {
          best := best[cur.0 := cur.1];
        }
        assert forall p :: p in Product(g, src, sinks) ==> p.0 != cur;
        ProgressDone(g, src, sinks, visited, done, queue, cur);
      } else {
        BestStep(src, sinkIDs, done, best, cur);
        visited, queue := Expand(g, forward, src, sinks, visited, done, queue, cur);
      }
      done := done + {cur};
    }
    ExploredAll(Product(g, src, sinks), (src, false), visited);
    BestIsExact(g, src, sinks, visited, best);
  }

  lemma BestIsExact(g: WorkflowGraph, src: string, sinks: seq<Node>, visited: set<State>, best: map<string, bool>)
    requires BestMatches(src, SinkIDs(sinks), visited, best)
    requires forall x :: x in visited <==> Reaches(Product(g, src, sinks), (src, false), x)
    ensures forall k :: k in best <==> Dangerous(g, src, sinks, k)
    ensures forall k :: k in best ==> (best[k] <==> !Ungated(g, src, sinks, k))
  {
    forall k
      ensures k in best <==> Dangerous(g, src, sinks, k)
      ensures k in best ==> (best[k] <==> !Ungated(g, src, sinks, k))
    {
      ProductReachability(g, src, sinks, k);
      assert ReachesEither(g, src, sinks, src, k) <==> (k, false) in visited || (k, true) in visited;
    }
  }

  /** Enqueue each unvisited state one step from `cur`. */
  method Expand(g: WorkflowGraph, forward: map<string, seq<string>>, src: string, sinks: seq<Node>,
                visited0: set<State>, ghost done: set<State>, queue0: seq<State>, cur: State)
    returns (visited: set<State>, queue: seq<State>)
    requires IsForward(forward, g.Edges)
    requires Progress(g, src, sinks, visited0, done, [cur] + queue0)
    requires !(cur.0 in SinkIDs(sinks) && cur.0 != src)
    ensures Progress(g, src, sinks, visited, done + {cur}, queue)
    ensures visited0 <= visited && (visited0 == visited ==> queue == queue0)
  {
    visited, queue := visited0, queue0;
    var nexts := Successors(forward, cur.0);
    for i := 0 to |nexts|
      invariant Progress(g, src, sinks, visited, done, [cur] + queue)
      invariant visited0 <= visited && (visited0 == visited ==> queue == queue0)
      invariant forall j :: 0 <= j < i && nexts[j] in g.Nodes && g.Nodes[nexts[j]].Type != Human ==>
                  StateAt(g, cur, nexts[j]) in visited
    {
      var next := nexts[i];
      if next in g.Nodes && g.Nodes[next].Type != Human {
        var state := StateAt(g, cur, next);
        if state !in visited {
          assert HasEdge(g.Edges, cur.0, next);
          ProgressStep(g, src, sinks, visited, done, queue, cur, next);
          visited := visited + {state};
          queue := queue + [state];
        }
      }
    }
    ProductFrom(g, forward, src, sinks, cur, visited);
    ProgressDone(g, src, sinks, visited, done, queue, cur);
  }

  lemma ProgressDone(g: WorkflowGraph, src: string, sinks: seq<Node>, visited: set<State>, done: set<State>,
                     queue: seq<State>, cur: State)
    requires Progress(g, src, sinks, visited, done, [cur] + queue)
    requires forall p :: p in Product(g, src, sinks) && p.0 == cur ==> p.1 in visited
    ensures Progress(g, src, sinks, visited, done + {cur}, queue)
  {
    assert cur in [cur] + queue;
  }

  lemma ProgressStep(g: WorkflowGraph, src: string, sinks: seq<Node>, visited: set<State>, done: set<State>,
                     queue: seq<State>, cur: State, next: string)
    requires Progress(g, src, sinks, visited, done, [cur] + queue)
    requires HasEdge(g.Edges, cur.0, next) && next in g.Nodes && g.Nodes[next].Type != Human
    requires !(cur.0 in SinkIDs(sinks) && cur.0 != src)
    ensures var state := StateAt(g, cur, next);
            Progress(g, src, sinks, visited + {state}, done, [cur] + (queue + [state]))
  {
    var state := StateAt(g, cur, next);
    StepInProduct(g, src, sinks, cur, next);
    assert cur in [cur] + queue;
    ExploreStep(Product(g, src, sinks), (src, false), visited, done, cur, state);
  }

  /** The state one step from `cur` at `next`. */
  function StateAt(g: WorkflowGraph, cur: State, next: string): State
    requires next in g.Nodes
  {
    (next, cur.1 || g.Nodes[next].Type == Condition)
  }

  lemma StepInProduct(g: WorkflowGraph, src: string, sinks: seq<Node>, cur: State, next: string)
    requires HasEdge(g.Edges, cur.0, next) && next in g.Nodes && g.Nodes[next].Type != Human
    requires !(cur.0 in SinkIDs(sinks) && cur.0 != src)
    ensures (cur, StateAt(g, cur, next)) in Product(g, src, sinks)
  {
    var e :| e in g.Edges && e.From == cur.0 && e.To == next;
    var p, f := (e.From, e.To), cur.1;
    assert p in Flow(g, src, sinks);
    assert ((p.0, f), (p.1, f || g.Nodes[p.1].Type == Condition)) in Product(g, src, sinks);
  }

  lemma ProductFrom(g: WorkflowGraph, forward: map<string, seq<string>>, src: string, sinks: seq<Node>, cur: State,
                    visited: set<State>)
    requires IsForward(forward, g.Edges)
    requires forall v :: v in Successors(forward, cur.0) && v in g.Nodes && g.Nodes[v].Type != Human ==>
               StateAt(g, cur, v) in visited
    ensures forall p :: p in Product(g, src, sinks) && p.0 == cur ==> p.1 in visited
  {
    forall p | p in Product(g, src, sinks) && p.0 == cur ensures p.1 in visited {
      assert HasEdge(g.Edges, cur.0, p.1.0);
      assert p.1 == StateAt(g, cur, p.1.0);
    }
  }

  // ----- The rule

  ghost predicate PairFinding(g: WorkflowGraph, src: string, sinks: seq<Node>, f: EvalFinding) {
    var k := f.Message.sink;
    && Dangerous(g, src, sinks, k)
    && f == BuildFinding(src, k, !Ungated(g, src, sinks, k))
  }

  /** The pair of a finding is the pair in its message. */
  ghost predicate DistinctPairs(fs: seq<EvalFinding>) {
    forall i, j :: 0 <= i < j < |fs| ==>
      (fs[i].Message.source, fs[i].Message.sink) != (fs[j].Message.source, fs[j].Message.sink)
  }

  ghost predicate Emitted(src: string, best: map<string, bool>, f: EvalFinding) {
    f.Message.sink in best && f == BuildFinding(src, f.Message.sink, best[f.Message.sink])
  }

  /** Emission ranges over a Go map: any order. */
  method EmitFindings(src: string, best: map<string, bool>) returns (fs: seq<EvalFinding>)
    ensures forall f :: f in fs <==> Emitted(src, best, f)
    ensures DistinctPairs(fs)
  {
    fs := [];
    var rest := best.Keys;
    while rest != {}
      invariant rest <= best.Keys
      invariant forall f :: f in fs ==> Emitted(src, best, f) && f.Message.sink !in rest
      invariant forall k :: k in best.Keys - rest ==> BuildFinding(src, k, best[k]) in fs
      invariant DistinctPairs(fs)
      decreases rest
    {
      var k :| k in rest;
      rest := rest - {k};
      fs := fs + [BuildFinding(src, k, best[k])];
    }
  }

  /** Sound and complete for one source. */
  ghost predicate ExactFor(g: WorkflowGraph, src: string, sinks: seq<Node>, findings: seq<EvalFinding>) {
    forall f: EvalFinding :: f.Message.source == src ==> (f in findings <==> PairFinding(g, src, sinks, f))
  }

  ghost predicate Exact(g: WorkflowGraph, sources: seq<Node>, sinks: seq<Node>, findings: seq<EvalFinding>) {
    ExactForAll(g, sources, sinks, findings) && AllFromSources(sources, findings) && DistinctPairs(findings)
  }

  ghost predicate ExactForAll(g: WorkflowGraph, sources: seq<Node>, sinks: seq<Node>, findings: seq<EvalFinding>) {
    forall s :: s in sources ==> ExactFor(g, s.ID, sinks, findings)
  }

  ghost predicate AllFromSources(sources: seq<Node>, findings: seq<EvalFinding>) {
    forall f :: f in findings ==> FromOneOf(sources, f)
  }

  ghost predicate FromOneOf(sources: seq<Node>, f: EvalFinding) {
    exists s :: s in sources && s.ID == f.Message.source
  }

  /** Findings come source by source, in the order in which the sources were listed. */
  ghost predicate InSourceOrder(sources: seq<Node>, fs: seq<EvalFinding>) {
    forall i, j, p, q ::
      0 <= i < j < |fs| && 0 <= p < |sources| && 0 <= q < |sources|
      && fs[i].Message.source == sources[p].ID && fs[j].Message.source == sources[q].ID
      ==> p <= q
  }

  lemma InSourceOrderGrows(sources: seq<Node>, src: Node, findings: seq<EvalFinding>, fs: seq<EvalFinding>)
    requires InSourceOrder(sources, findings) && AllFromSources(sources, findings)
    requires (forall f :: f in fs ==> f.Message.source == src.ID) && forall s :: s in sources ==> s.ID != src.ID
    ensures InSourceOrder(sources + [src], findings + fs)
  {
    var all, both := sources + [src], findings + fs;
    forall i, j, p, q | 0 <= i < j < |both| && 0 <= p < |all| && 0 <= q < |all|
                        && both[i].Message.source == all[p].ID && both[j].Message.source == all[q].ID
      ensures p <= q
    {
      if j < |findings| {
        assert findings[i] in findings && findings[j] in findings;
        assert FromOneOf(sources, findings[i]) && FromOneOf(sources, findings[j]);
      } else {
        assert both[j] in fs && forall m :: 0 <= m < |sources| ==> sources[m] in sources;
      }
    }
  }

  lemma SourcesGrow(sources: seq<Node>, src: Node, findings: seq<EvalFinding>, fs: seq<EvalFinding>)
    requires AllFromSources(sources, findings) && forall f :: f in fs ==> f.Message.source == src.ID
    ensures AllFromSources(sources + [src], findings + fs)
  {
    forall f | f in findings + fs ensures FromOneOf(sources + [src], f) {
      if f in findings {
        var s :| s in sources && s.ID == f.Message.source;
        assert s in sources + [src];
      } else {
        assert src in sources + [src];
      }
    }
  }

  lemma ExactForAllGrows(g: WorkflowGraph, sources: seq<Node>, src: Node, sinks: seq<Node>, findings: seq<EvalFinding>,
                         fs: seq<EvalFinding>)
    requires ExactForAll(g, sources, sinks, findings) && forall f :: f in findings ==> f.Message.source != src.ID
    requires ExactFor(g, src.ID, sinks, fs) && forall f :: f in fs ==> f.Message.source == src.ID
    requires forall s :: s in sources ==> s.ID != src.ID
    ensures ExactForAll(g, sources + [src], sinks, findings + fs)
  {
    forall s | s in sources + [src] ensures ExactFor(g, s.ID, sinks, findings + fs) {
      assert ExactFor(g, s.ID, sinks, if s in sources then findings else fs);
    }
  }

  lemma ExactGrows(g: WorkflowGraph, sources: seq<Node>, src: Node, sinks: seq<Node>, findings: seq<EvalFinding>,
                   fs: seq<EvalFinding>)
    requires Exact(g, sources, sinks, findings)
    requires ExactFor(g, src.ID, sinks, fs) && DistinctPairs(fs) && forall f :: f in fs ==> f.Message.source == src.ID
    requires forall s :: s in sources ==> s.ID != src.ID
    ensures Exact(g, sources + [src], sinks, findings + fs)
  {
    forall f | f in findings ensures f.Message.source != src.ID {
      assert FromOneOf(sources, f);
    }
    ExactForAllGrows(g, sources, src, sinks, findings, fs);
    SourcesGrow(sources, src, findings, fs);
    DistinctPairsConcat(findings, fs, src.ID);
  }

  lemma DistinctPairsConcat(a: seq<EvalFinding>, b: seq<EvalFinding>, src: string)
    requires DistinctPairs(a) && DistinctPairs(b)
    requires (forall f :: f in a ==> f.Message.source != src) && forall f :: f in b ==> f.Message.source == src
    ensures DistinctPairs(a + b)
  {
    forall i, j | 0 <= i < |a| && 0 <= j < |b| ensures a[i].Message.source != b[j].Message.source {
      assert a[i] in a && b[j] in b;
    }
  }

  /** What the rule says of a pair: Critical when some walk avoids every Condition node, Warning otherwise. */
  ghost predicate Told(g: WorkflowGraph, sinks: seq<Node>, f: EvalFinding) {
    && f.RuleName == "eval_missing" && f.NodeID == f.Message.sink && f.MessageTemplateID == "" && f.SourceFile == ""
    && if Ungated(g, f.Message.source, sinks, f.Message.sink)
       then f.Severity == Critical && f.Confidence == 0.9 && !f.Message.gated
       else f.Severity == Warning && f.Confidence == 0.6 && f.Message.gated
  }

  ghost predicate PairReported(findings: seq<EvalFinding>, p: string, k: string) {
    exists f :: f in findings && f.Message.source == p && f.Message.sink == k
  }

  lemma ExactIsTold(g: WorkflowGraph, sources: seq<Node>, sinks: seq<Node>, findings: seq<EvalFinding>)
    requires Exact(g, sources, sinks, findings)
    ensures forall f :: f in findings ==> Told(g, sinks, f)
    ensures forall p, k :: PairReported(findings, p, k) <==>
              (exists s :: s in sources && s.ID == p) && Dangerous(g, p, sinks, k)
  {
    forall f | f in findings ensures PairFinding(g, f.Message.source, sinks, f) {
      assert FromOneOf(sources, f);
    }
    forall p, k | (exists s :: s in sources && s.ID == p) && Dangerous(g, p, sinks, k)
      ensures PairReported(findings, p, k)
    {
      var s :| s in sources && s.ID == p;
      assert ExactFor(g, s.ID, sinks, findings);
      assert PairFinding(g, p, sinks, BuildFinding(p, k, !Ungated(g, p, sinks, k)));
      assert BuildFinding(p, k, !Ungated(g, p, sinks, k)) in findings;
    }
    forall p, k | PairReported(findings, p, k)
      ensures (exists s :: s in sources && s.ID == p) && Dangerous(g, p, sinks, k)
    {
      var f :| f in findings && f.Message.source == p && f.Message.sink == k;
      assert FromOneOf(sources, f);
    }
  }

  /**
   * One finding for each (source, sink) pair joined by a walk without Human nodes or interior sinks, Critical exactly
   * when such a walk also avoids every Condition node.
   */
  method Run(g: WorkflowGraph, sources: seq<Node>, sinks: seq<Node>) returns (findings: seq<EvalFinding>)
    requires forall i, j :: 0 <= i < j < |sources| ==> sources[i].ID != sources[j].ID
    ensures Exact(g, sources, sinks, findings) && InSourceOrder(sources, findings)
    ensures forall p, k :: PairReported(findings, p, k) <==>
              (exists s :: s in sources && s.ID == p) && Dangerous(g, p, sinks, k)
    ensures DistinctPairs(findings)
    ensures forall f :: f in findings ==> Told(g, sinks, f)
  {
    var sinkIDs := set s | s in sinks :: s.ID;
    var forward := BuildForward(g);
    findings := [];
    for i := 0 to |sources|
      invariant Exact(g, sources[..i], sinks, findings) && InSourceOrder(sources[..i], findings)
    {
      var src := sources[i];
      var best := Search(g, forward, src.ID, sinks, sinkIDs);
      var fs := EmitFindings(src.ID, best);
      ExactForOne(g, src.ID, sinks, best, fs);
      InSourceOrderGrows(sources[..i], src, findings, fs);
      ExactGrows(g, sources[..i], src, sinks, findings, fs);
      assert sources[..i + 1] == sources[..i] + [src];
      findings := findings + fs;
    }
    assert sources[..|sources|] == sources;
    ExactIsTold(g, sources, sinks, findings);
  }

  lemma ExactForOne(g: WorkflowGraph, src: string, sinks: seq<Node>, best: map<string, bool>, fs: seq<EvalFinding>)
    requires forall k :: k in best <==> Dangerous(g, src, sinks, k)
    requires forall k :: k in best ==> (best[k] <==> !Ungated(g, src, sinks, k))
    requires forall f :: f in fs <==> Emitted(src, best, f)
    ensures ExactFor(g, src, sinks, fs) && forall f :: f in fs ==> f.Message.source == src
  {
    forall f: EvalFinding ensures Emitted(src, best, f) <==> PairFinding(g, src, sinks, f) {
      assert f.Message.sink in best <==> Dangerous(g, src, sinks, f.Message.sink);
    }
  }
}
