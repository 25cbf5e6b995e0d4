/** Which delegation cycles are reported: an exact account of the search, its order included. */
module CircularAgentsReport {
  import opened Domain
  import opened Ordering
  import opened Paths
  import opened CircularAgents
  import opened CircularAgentsProperties

  // ----- The first cycle of an agent

  /** p is a simple cycle of existing nodes through two agents that continues the path. */
  ghost predicate Carries(g: WorkflowGraph, path: seq<string>, p: seq<string>) {
    path <= p && DelegationCycle(g, p)
  }

  /** Going from the end of the path to x leads to such a cycle, or closes one. */
  ghost predicate Leads(g: WorkflowGraph, path: seq<string>, x: string)
    requires path != []
  {
    if x == path[0] then DelegationCycle(g, path) else exists p :: Carries(g, path + [x], p)
  }

  function NextOn(p: seq<string>, j: nat): string
    requires j < |p|
  {
    if j == |p| - 1 then p[0] else p[j + 1]
  }

  /** From position k on, no edge that comes before the one taken leads to a delegation cycle. */
  ghost predicate FirstFrom(g: WorkflowGraph, p: seq<string>, k: nat) {
    forall j: nat, x :: k <= j < |p| && EdgeBefore(g.Edges, p[j], x, NextOn(p, j)) ==> !Leads(g, p[..j + 1], x)
  }

  /** The delegation cycle that a search from the agent meets first, edge by edge. */
  ghost predicate FirstCycle(g: WorkflowGraph, src: string, p: seq<string>) {
    p != [] && p[0] == src && DelegationCycle(g, p) && FirstFrom(g, p, 0)
  }

  // ----- The search finds it

  ghost predicate Exhausted(g: WorkflowGraph, path: seq<string>, done: seq<Edge>)
    requires path != []
  {
    forall e :: e in done ==> !Leads(g, path, e.To)
  }

  ghost predicate AgentPath(g: WorkflowGraph, src: string, path: seq<string>) {
    Prefix(g, src, path) && src in AgentIDs(g)
  }

  /** An edge that the search turns down leads to no delegation cycle. */
  lemma TurnedDown(g: WorkflowGraph, src: string, path: seq<string>, e: Edge)
    requires AgentPath(g, src, path) && e in g.Edges && e.From == path[|path| - 1]
    requires e.To == src ==> |AgentsOn(AgentIDs(g), path)| < 2
    requires e.To != src && e.To !in path && e.To in g.Nodes ==> Search(g, AgentIDs(g), src, path + [e.To]).None?
    ensures !Leads(g, path, e.To)
  {
    var x := e.To;
    if x != src && exists p :: Carries(g, path + [x], p) {
      var p :| Carries(g, path + [x], p);
      var ext := p[|path| + 1..];
      assert p == (path + [x]) + ext;
      assert p[|path|] == x && x in p;
      CycleInNodes(g, p, x);
      forall i | 0 <= i < |path| ensures path[i] != x {
        assert p[i] == path[i];
      }
      assert (path + [x])[0] == src;
      SearchFinds(g, AgentIDs(g), src, path + [x], ext);
    }
  }

  lemma CycleInNodes(g: WorkflowGraph, p: seq<string>, x: string)
    requires IsCycle(Links(g), p) && x in p
    ensures x in g.Nodes
  {
    var y := CyclePredecessor(Links(g), p, x);
  }

  lemma ClosesHere(g: WorkflowGraph, src: string, path: seq<string>)
    requires AgentPath(g, src, path) && (exists e :: e in g.Edges && e.From == path[|path| - 1] && e.To == src)
    requires |AgentsOn(AgentIDs(g), path)| >= 2
    ensures DelegationCycle(g, path)
  {}

  lemma StepOfPath(g: WorkflowGraph, src: string, path: seq<string>, x: string)
    requires AgentPath(g, src, path) && x in g.Nodes && x !in path
    requires exists e :: e in g.Edges && e.From == path[|path| - 1] && e.To == x
    ensures AgentPath(g, src, path + [x])
  {
    var longer := path + [x];
    forall i | 0 <= i < |longer| - 1 ensures (longer[i], longer[i + 1]) in Links(g) {
      if i < |path| - 1 {
        assert (path[i], path[i + 1]) in Links(g);
      }
    }
  }

  /** The cycle found continues the path, and from its end on takes the first edges that lead anywhere. */
  ghost predicate FoundFirst(g: WorkflowGraph, path: seq<string>, p: seq<string>) {
    path != [] && Carries(g, path, p) && FirstFrom(g, p, |path| - 1)
  }

  lemma FirstStep(g: WorkflowGraph, path: seq<string>, done: seq<Edge>, es: seq<Edge>, p: seq<string>)
    requires path != [] && es != [] && OutgoingEdges(g.Edges, path[|path| - 1]) == done + es && Exhausted(g, path, done)
    requires path <= p && es[0].To == NextOn(p, |path| - 1) && FirstFrom(g, p, |path|)
    ensures FirstFrom(g, p, |path| - 1)
  {
    forall j: nat, x | |path| - 1 <= j < |p| && EdgeBefore(g.Edges, p[j], x, NextOn(p, j))
      ensures !Leads(g, p[..j + 1], x)
    {
      if j == |path| - 1 {
        assert p[..j + 1] == path && p[j] == path[j];
        BeforeInOutgoing(g.Edges, path[j], done, es, x);
      }
    }
  }

  lemma {:induction false} SearchIsFirst(g: WorkflowGraph, src: string, path: seq<string>)
    requires AgentPath(g, src, path)
    ensures var r := Search(g, AgentIDs(g), src, path); r.Some? ==> FoundFirst(g, path, r.value)
    decreases g.Nodes.Keys - Elements(path), 1, 0
  {
    var es := OutgoingEdges(g.Edges, path[|path| - 1]);
    OutgoingEdgesAre(g.Edges, path[|path| - 1]);
    assert es == [] + es;
    SearchEdgesAreFirst(g, src, path, [], es);
  }

  lemma {:induction false} SearchEdgesAreFirst(g: WorkflowGraph, src: string, path: seq<string>, done: seq<Edge>,
                                               es: seq<Edge>)
    requires AgentPath(g, src, path) && OutgoingEdges(g.Edges, path[|path| - 1]) == done + es
    requires Exhausted(g, path, done)
    requires forall e :: e in es ==> e in g.Edges && e.From == path[|path| - 1]
    ensures var r := SearchEdges(g, AgentIDs(g), src, path, es); r.Some? ==> FoundFirst(g, path, r.value)
    decreases g.Nodes.Keys - Elements(path), 0, |es|
  {
    if es != [] {
      var next, agents := es[0].To, AgentIDs(g);
      assert es[0] in es && es[0] in g.Edges;
      AgentsOnAre(agents, path);
      if next == src && |AgentsOn(agents, path)| >= 2 {
        ClosesHere(g, src, path);
        FirstStep(g, path, done, es, path);
      } else {
        if next != src && next !in path && next in g.Nodes {
          assert next in g.Nodes.Keys - Elements(path) && next !in g.Nodes.Keys - Elements(path + [next]);
          StepOfPath(g, src, path, next);
          SearchIsFirst(g, src, path + [next]);
          if Search(g, agents, src, path + [next]).Some? {
            FirstStep(g, path, done, es, Search(g, agents, src, path + [next]).value);
          }
        }
        if next == src || next in path || next !in g.Nodes || Search(g, agents, src, path + [next]).None? {
          TurnedDown(g, src, path, es[0]);
          assert done + es == (done + [es[0]]) + es[1..];
          SearchEdgesAreFirst(g, src, path, done + [es[0]], es[1..]);
        }
      }
    }
  }

  lemma LeadsAlong(g: WorkflowGraph, p: seq<string>, j: nat)
    requires DelegationCycle(g, p) && j < |p|
    ensures Leads(g, p[..j + 1], NextOn(p, j))
    ensures exists e :: e in g.Edges && e.From == p[j] && e.To == NextOn(p, j)
  {
    if j == |p| - 1 {
      assert p[..j + 1] == p;
      assert (p[j], p[0]) in Links(g);
    } else {
      assert p[..j + 1] + [p[j + 1]] <= p;
      assert Carries(g, p[..j + 1] + [p[j + 1]], p);
      assert (p[j], p[j + 1]) in Links(g);
    }
  }

  lemma SameTurn(g: WorkflowGraph, src: string, p: seq<string>, q: seq<string>, j: nat)
    requires FirstCycle(g, src, p) && FirstCycle(g, src, q) && j < |p| && j < |q| && p[..j + 1] == q[..j + 1]
    ensures NextOn(p, j) == NextOn(q, j)
  {
    assert p[..j + 1][j] == p[j] && q[..j + 1][j] == q[j];
    LeadsAlong(g, p, j);
    LeadsAlong(g, q, j);
    if NextOn(p, j) != NextOn(q, j) {
      EdgeBeforeIsTotal(g.Edges, p[j], NextOn(p, j), NextOn(q, j));
    }
  }

  lemma {:induction false} SameTurns(g: WorkflowGraph, src: string, p: seq<string>, q: seq<string>, j: nat)
    requires FirstCycle(g, src, p) && FirstCycle(g, src, q) && j < |p| && j < |q|
    ensures p[..j + 1] == q[..j + 1]
  {
    if j > 0 {
      SameTurns(g, src, p, q, j - 1);
      SameTurn(g, src, p, q, j - 1);
      assert p[..j + 1] == p[..j] + [p[j]] && q[..j + 1] == q[..j] + [q[j]];
    }
  }

  /** An agent has at most one first cycle. */
  lemma FirstCycleIsUnique(g: WorkflowGraph, src: string, p: seq<string>, q: seq<string>)
    requires FirstCycle(g, src, p) && FirstCycle(g, src, q) && |p| <= |q|
    ensures p == q
  {
    var n := |p|;
    SameTurns(g, src, p, q, n - 1);
    SameTurn(g, src, p, q, n - 1);
    assert p[..n] == p && q[..n] == p;
  }

  /** The search from an agent finds its first cycle, and nothing when it has none. */
  lemma SearchFindsFirstCycle(g: WorkflowGraph, src: string, p: seq<string>)
    requires src in AgentIDs(g)
    ensures Search(g, AgentIDs(g), src, [src]) == Some(p) <==> FirstCycle(g, src, p)
  {
    var r := Search(g, AgentIDs(g), src, [src]);
    SearchSucceedsIff(g, src);
    if r.Some? {
      SearchIsFirst(g, src, [src]);
      assert r.value[0] == [src][0];
      assert FirstCycle(g, src, r.value);
      if FirstCycle(g, src, p) {
        if |p| <= |r.value| {
          FirstCycleIsUnique(g, src, p, r.value);
        } else {
          FirstCycleIsUnique(g, src, r.value, p);
        }
      }
    } else if FirstCycle(g, src, p) {
      assert OnDelegationCycle(g, src);
    }
  }

  // ----- The whole report

  /** The agents on the cycle are those on a cycle of an agent before `src`. */
  ghost predicate ToldBefore(g: WorkflowGraph, src: string, p: seq<string>) {
    exists a, q :: a != src && Alphabetical(a, src) && a in AgentIDs(g) && FirstCycle(g, a, q) && SameAgents(g, p, q)
  }

  ghost predicate SameAgents(g: WorkflowGraph, p: seq<string>, q: seq<string>) {
    forall v :: v in AgentIDs(g) ==> (v in p <==> v in q)
  }

  /** What is said of an agent's first cycle. */
  ghost predicate TellsCycle(g: WorkflowGraph, f: AgentFinding, p: seq<string>) {
    && f.Message.Delegation? && f.RuleName == "circular_dep_agents" && f.Severity == Warning
    && f.Message.path == p + [f.NodeID]
    && (forall v :: v in f.Message.members <==> v in p && v in AgentIDs(g))
    && (forall i, j :: 0 <= i < j < |f.Message.members| ==>
          f.Message.members[i] != f.Message.members[j] && Alphabetical(f.Message.members[i], f.Message.members[j]))
    && f.Confidence == (if |f.Message.members| == 2 then 0.85 else 0.75)
    && f.MessageTemplateID == "" && f.SourceFile == ""
  }

  ghost predicate TellsSelf(f: AgentFinding) {
    f.Message == SelfHandoff && f.RuleName == "circular_dep_agents" && f.Severity == Info && f.Confidence == 0.6
    && f.MessageTemplateID == "" && f.SourceFile == ""
  }

  /** A finding is in the report exactly when this holds of it. */
  ghost predicate Due(g: WorkflowGraph, f: AgentFinding) {
    f.NodeID in AgentIDs(g)
    && if f.Message.SelfHandoff? then SelfEdge(g, f.NodeID) && TellsSelf(f)
       else exists p :: FirstCycle(g, f.NodeID, p) && !ToldBefore(g, f.NodeID, p) && TellsCycle(g, f, p)
  }

  /** Findings come agent by agent in string order, an agent's self hand-off before its cycle. */
  ghost predicate ByAgent(fs: seq<AgentFinding>) {
    forall i, j :: 0 <= i < j < |fs| ==>
      Alphabetical(fs[i].NodeID, fs[j].NodeID)
      && (fs[i].NodeID == fs[j].NodeID ==> fs[i].Message.SelfHandoff? && fs[j].Message.Delegation?)
  }

  lemma MembersTell(g: WorkflowGraph, src: string, p: seq<string>, f: AgentFinding)
    requires src in AgentIDs(g) && FirstCycle(g, src, p)
    ensures f.NodeID == src && TellsCycle(g, f, p) <==> f == CycleFinding(AgentIDs(g), src, p)
  {
    var m, agents := Members(AgentIDs(g), p), AgentIDs(g);
    MembersAre(agents, p);
    forall a: string, b: string ensures StrLe(a, b) <==> Alphabetical(a, b) {
      StrLeIsAlphabetical(a, b);
    }
    if f.NodeID == src && TellsCycle(g, f, p) {
      var x := f.Message.members;
      SameListing(x, m);
    }
  }

  lemma SameListing(a: seq<string>, b: seq<string>)
    requires SortedBy(StrLe, a) && SortedBy(StrLe, b) && Distinct(a) && Distinct(b) && forall v :: v in a <==> v in b
    ensures a == b
  {
    forall v ensures multiset(a)[v] == multiset(b)[v] {
      OnceEach(a, v);
      OnceEach(b, v);
    }
    SortedStringsUnique(a, b);
  }

  lemma SameMembersIff(g: WorkflowGraph, p: seq<string>, q: seq<string>)
    requires Distinct(p) && Distinct(q)
    ensures Members(AgentIDs(g), p) == Members(AgentIDs(g), q) <==> SameAgents(g, p, q)
  {
    var a, b := Members(AgentIDs(g), p), Members(AgentIDs(g), q);
    MembersAre(AgentIDs(g), p);
    MembersAre(AgentIDs(g), q);
    if SameAgents(g, p, q) {
      SameListing(a, b);
    }
    if a == b {
      forall v | v in AgentIDs(g) ensures v in p <==> v in q {
        assert v in a <==> v in b;
      }
    }
  }

  /** What the log holds when the agents in `done` have been searched. */
  ghost predicate LogHolds(g: WorkflowGraph, done: set<string>, log: Log) {
    && (forall f :: f in log.findings <==> f.NodeID in done && Due(g, f))
    && (forall a :: SelfKey(a) in log.emitted <==> a in done && SelfEdge(g, a))
    && (forall ms :: MembersKey(ms) in log.emitted <==> MembersLogged(g, done, ms))
    && ByAgent(log.findings)
  }

  ghost predicate MembersLogged(g: WorkflowGraph, done: set<string>, ms: seq<string>) {
    exists a, p :: a in done && FirstCycle(g, a, p) && ms == Members(AgentIDs(g), p)
  }

  /** The agents searched are those before src. */
  ghost predicate UpTo(g: WorkflowGraph, done: set<string>, src: string) {
    src in AgentIDs(g) && forall a :: a in done <==> a in AgentIDs(g) && a != src && Alphabetical(a, src)
  }

  lemma ToldBeforeIff(g: WorkflowGraph, done: set<string>, src: string, p: seq<string>)
    requires UpTo(g, done, src) && FirstCycle(g, src, p)
    ensures MembersLogged(g, done, Members(AgentIDs(g), p)) <==> ToldBefore(g, src, p)
  {
    if MembersLogged(g, done, Members(AgentIDs(g), p)) {
      var a, q :| a in done && FirstCycle(g, a, q) && Members(AgentIDs(g), p) == Members(AgentIDs(g), q);
      SameMembersIff(g, p, q);
    }
    if ToldBefore(g, src, p) {
      var a, q :| a != src && Alphabetical(a, src) && a in AgentIDs(g) && FirstCycle(g, a, q) && SameAgents(g, p, q);
      SameMembersIff(g, p, q);
      assert a in done;
    }
  }

  /** What an agent's own findings are. */
  ghost function OwnFindings(g: WorkflowGraph, src: string): seq<AgentFinding>
    requires src in AgentIDs(g)
  {
    var r := Search(g, AgentIDs(g), src, [src]);
    (if SelfEdge(g, src) then [SelfFinding(src)] else [])
    + if r.Some? && !ToldBefore(g, src, r.value) then [CycleFinding(AgentIDs(g), src, r.value)] else []
  }

  lemma SelfTells(g: WorkflowGraph, src: string, f: AgentFinding)
    requires src in AgentIDs(g)
    ensures f.NodeID == src && f.Message.SelfHandoff? && Due(g, f) <==> SelfEdge(g, src) && f == SelfFinding(src)
  {}

  lemma CycleTells(g: WorkflowGraph, src: string, f: AgentFinding)
    requires src in AgentIDs(g)
    ensures var r := Search(g, AgentIDs(g), src, [src]);
            f.NodeID == src && f.Message.Delegation? && Due(g, f) <==>
              r.Some? && !ToldBefore(g, src, r.value) && f == CycleFinding(AgentIDs(g), src, r.value)
  {
    var r := Search(g, AgentIDs(g), src, [src]);
    if r.Some? {
      SearchFindsFirstCycle(g, src, r.value);
      MembersTell(g, src, r.value, f);
    }
    if f.NodeID == src && f.Message.Delegation? && Due(g, f) {
      var p :| FirstCycle(g, src, p) && !ToldBefore(g, src, p) && TellsCycle(g, f, p);
      SearchFindsFirstCycle(g, src, p);
    }
  }

  lemma OwnFindingsAreDue(g: WorkflowGraph, src: string)
    requires src in AgentIDs(g)
    ensures forall f :: f in OwnFindings(g, src) <==> f.NodeID == src && Due(g, f)
  {
    forall f ensures f in OwnFindings(g, src) <==> f.NodeID == src && Due(g, f) {
      SelfTells(g, src, f);
      CycleTells(g, src, f);
    }
  }

  lemma AfterSourceAdds(g: WorkflowGraph, done: set<string>, src: string, log: Log)
    requires UpTo(g, done, src) && LogHolds(g, done, log)
    ensures var r, found := AfterSource(g, AgentIDs(g), src, log), Search(g, AgentIDs(g), src, [src]);
            && r.findings == log.findings + OwnFindings(g, src)
            && r.emitted == log.emitted + (if SelfEdge(g, src) then {SelfKey(src)} else {})
                 + if found.Some? then {MembersKey(Members(AgentIDs(g), found.value))} else {}
  {
    assert SelfKey(src) !in log.emitted;
    var found := Search(g, AgentIDs(g), src, [src]);
    if found.Some? {
      SearchFindsFirstCycle(g, src, found.value);
      ToldBeforeIff(g, done, src, found.value);
    }
  }

  lemma KeysStep(g: WorkflowGraph, done: set<string>, src: string, log: Log)
    requires UpTo(g, done, src) && LogHolds(g, done, log)
    ensures var r := AfterSource(g, AgentIDs(g), src, log);
            && (forall a :: SelfKey(a) in r.emitted <==> a in done + {src} && SelfEdge(g, a))
            && (forall ms :: MembersKey(ms) in r.emitted <==> MembersLogged(g, done + {src}, ms))
  {
    var r, found := AfterSource(g, AgentIDs(g), src, log), Search(g, AgentIDs(g), src, [src]);
    AfterSourceAdds(g, done, src, log);
    forall ms ensures MembersKey(ms) in r.emitted <==> MembersLogged(g, done + {src}, ms) {
      if found.Some? {
        SearchFindsFirstCycle(g, src, found.value);
      }
      if MembersLogged(g, done, ms) {
        var a, p :| a in done && FirstCycle(g, a, p) && ms == Members(AgentIDs(g), p);
        assert a in done + {src};
      }
      if MembersLogged(g, done + {src}, ms) && !MembersLogged(g, done, ms) {
        var a, p :| a in done + {src} && FirstCycle(g, a, p) && ms == Members(AgentIDs(g), p);
        SearchFindsFirstCycle(g, src, p);
      }
    }
  }

  lemma FindingsStep(g: WorkflowGraph, done: set<string>, src: string, log: Log)
    requires UpTo(g, done, src) && LogHolds(g, done, log)
    ensures var fs := log.findings + OwnFindings(g, src);
            (forall f :: f in fs <==> f.NodeID in done + {src} && Due(g, f)) && ByAgent(fs)
  {
    OwnFindingsAreDue(g, src);
    var old_, own := log.findings, OwnFindings(g, src);
    var fs := old_ + own;
    assert Alphabetical(src, src);
    forall i, j | 0 <= i < j < |fs|
      ensures Alphabetical(fs[i].NodeID, fs[j].NodeID)
      ensures fs[i].NodeID == fs[j].NodeID ==> fs[i].Message.SelfHandoff? && fs[j].Message.Delegation?
    {
      if i < |old_| && j >= |old_| {
        assert fs[i] in old_ && fs[j] in own;
      } else if i >= |old_| {
        assert |own| == 2 && fs[i] == own[0] && fs[j] == own[1];
      }
    }
  }

  lemma SourcesInTurn(g: WorkflowGraph, srcs: seq<string>, i: nat)
    requires ListsAgents(g, srcs) && i < |srcs|
    ensures UpTo(g, Elements(srcs[..i]), srcs[i])
  {
    ListsEachOnce(srcs, AgentIDs(g));
    forall a ensures a in Elements(srcs[..i]) <==> a in AgentIDs(g) && a != srcs[i] && Alphabetical(a, srcs[i]) {
      StrLeIsAlphabetical(a, srcs[i]);
      if a in srcs[..i] {
        var k :| 0 <= k < i && srcs[..i][k] == a;
        assert srcs[k] == a && srcs[i] in srcs && srcs[k] in srcs;
      }
      if a in AgentIDs(g) && a != srcs[i] && StrLe(a, srcs[i]) {
        var k :| 0 <= k < |srcs| && srcs[k] == a;
        if k > i {
          StrLeAntisymmetric(a, srcs[i]);
        }
        assert srcs[..i][k] == a;
      }
    }
    assert srcs[i] in srcs;
  }

  lemma AfterSourceHolds(g: WorkflowGraph, done: set<string>, src: string, log: Log)
    requires UpTo(g, done, src) && LogHolds(g, done, log)
    ensures LogHolds(g, done + {src}, AfterSource(g, AgentIDs(g), src, log))
  {
    AfterSourceAdds(g, done, src, log);
    KeysStep(g, done, src, log);
    FindingsStep(g, done, src, log);
  }

  lemma {:induction false} AfterSourcesHold(g: WorkflowGraph, srcs: seq<string>, k: nat, log: Log)
    requires ListsAgents(g, srcs) && k <= |srcs| && LogHolds(g, Elements(srcs[..k]), log)
    ensures LogHolds(g, Elements(srcs), AfterSources(g, AgentIDs(g), srcs[k..], log))
    decreases |srcs| - k
  {
    if k == |srcs| {
      assert srcs[..k] == srcs;
    } else {
      SourcesInTurn(g, srcs, k);
      AfterSourceHolds(g, Elements(srcs[..k]), srcs[k], log);
      assert srcs[..k + 1] == srcs[..k] + [srcs[k]];
      assert Elements(srcs[..k + 1]) == Elements(srcs[..k]) + {srcs[k]};
      assert srcs[k..][0] == srcs[k] && srcs[k..][1..] == srcs[k + 1..];
      AfterSourcesHold(g, srcs, k + 1, AfterSource(g, AgentIDs(g), srcs[k], log));
    }
  }

  lemma NothingHolds(g: WorkflowGraph)
    ensures LogHolds(g, {}, Log({}, []))
  {}

  /** The report holds exactly the findings that are due, agent by agent. */
  lemma ReportIsExact(g: WorkflowGraph, srcs: seq<string>)
    requires ListsAgents(g, srcs)
    ensures (forall f :: f in Report(g, srcs) <==> Due(g, f)) && ByAgent(Report(g, srcs))
  {
    NothingHolds(g);
    assert srcs[..0] == [] && Elements([]) == {} && srcs[0..] == srcs;
    AfterSourcesHold(g, srcs, 0, Log({}, []));
    ListsEachOnce(srcs, AgentIDs(g));
    assert Elements(srcs) == AgentIDs(g);
  }

  method Analyze(g: WorkflowGraph) returns (findings: seq<AgentFinding>)
    ensures exists srcs :: ListsAgents(g, srcs) && findings == Report(g, srcs)
    ensures forall f :: f in findings <==> Due(g, f)
    ensures ByAgent(findings)
  {
    var srcs := CircularAgents.Sources(g);
    var agentIDs := set v | v in srcs;
    forall v ensures v in agentIDs <==> v in AgentIDs(g) {
      assert v in srcs <==> v in multiset(srcs);
    }
    assert agentIDs == AgentIDs(g);
    var run := new Searcher(g, agentIDs);
    for i := 0 to |srcs|
      invariant AfterSources(g, agentIDs, srcs, Log({}, [])) == AfterSources(g, agentIDs, srcs[i..], run.Reports())
    {
      assert srcs[i..][1..] == srcs[i + 1..];
      run.RunSource(srcs[i]);
    }
    ReportIsExact(g, srcs);
    return run.findings;
  }

  /** An agent is an LLM node with a role, or with sub-agents that are not an empty list. */
  lemma AgentsAre(g: WorkflowGraph, v: string)
    ensures v in AgentIDs(g) <==>
            v in g.Nodes && g.Nodes[v].Type == LLM
            && var cfg := g.Nodes[v].Config;
               || ("agent_role" in cfg && cfg["agent_role"].Str? && cfg["agent_role"] != Str(""))
               || ("sub_agents" in cfg && cfg["sub_agents"] !in {Null, Arr([]), Strs([])})
  {}
}
