/** The backtracking search finds exactly the agents on simple delegation cycles. */
module CircularAgentsProperties {
  import opened Domain
  import opened Ordering
  import opened Paths
  import opened CircularAgents

  // ----- Declarative vocabulary

  /** A simple cycle of existing nodes that carries at least two agents. */
  ghost predicate DelegationCycle(g: WorkflowGraph, c: seq<string>) {
    IsCycle(Links(g), c) && Distinct(c) && |AgentsOn(AgentIDs(g), c)| >= 2
  }

  ghost predicate OnDelegationCycle(g: WorkflowGraph, v: string) {
    exists c :: DelegationCycle(g, c) && v in c
  }

  // ----- The search

  lemma AgentsOnAre(agents: set<string>, path: seq<string>)
    ensures forall v :: v in AgentsOn(agents, path) <==> v in path && v in agents
    ensures |AgentsOn(agents, path)| <= |path|
  {}

  lemma AgentsOnConcat(agents: set<string>, a: seq<string>, b: seq<string>)
    ensures AgentsOn(agents, a + b) == AgentsOn(agents, a) + AgentsOn(agents, b)
  {
    if a != [] {
      AgentsOnConcat(agents, a[1..], b);
      assert (a + b)[1..] == a[1..] + b;
    } else {
      assert a + b == b;
    }
  }

  ghost predicate Found(g: WorkflowGraph, agents: set<string>, src: string, path: seq<string>, p: seq<string>) {
    path <= p && IsCycle(Links(g), p) && Distinct(p) && |AgentsOn(agents, p)| >= 2
  }

  ghost predicate Prefix(g: WorkflowGraph, src: string, path: seq<string>) {
    IsWalk(Links(g), path) && Distinct(path) && path[0] == src && src in g.Nodes && path[|path| - 1] in g.Nodes
  }

  lemma {:induction false} SearchIsSound(g: WorkflowGraph, agents: set<string>, src: string, path: seq<string>)
    requires Prefix(g, src, path)
    ensures var r := Search(g, agents, src, path); r.Some? ==> Found(g, agents, src, path, r.value)
    decreases g.Nodes.Keys - Elements(path), 1, 0
  {
    OutgoingEdgesAre(g.Edges, path[|path| - 1]);
    SearchEdgesIsSound(g, agents, src, path, OutgoingEdges(g.Edges, path[|path| - 1]));
  }

  lemma {:induction false} SearchEdgesIsSound(g: WorkflowGraph, agents: set<string>, src: string, path: seq<string>,
                                              es: seq<Edge>)
    requires Prefix(g, src, path)
    requires forall e :: e in es ==> e in g.Edges && e.From == path[|path| - 1]
    ensures var r := SearchEdges(g, agents, src, path, es); r.Some? ==> Found(g, agents, src, path, r.value)
    decreases g.Nodes.Keys - Elements(path), 0, |es|
  {
    if es != [] {
      var next := es[0].To;
      assert es[0] in es && es[0] in g.Edges;
      if next !in path && next in g.Nodes && !(next == src && |path| >= 2) {
        assert next in g.Nodes.Keys - Elements(path) && next !in g.Nodes.Keys - Elements(path + [next]);
        assert (path[|path| - 1], next) in Links(g);
        SearchIsSound(g, agents, src, path + [next]);
      } else {
        assert next == src ==> (path[|path| - 1], src) in Links(g);
      }
      SearchEdgesIsSound(g, agents, src, path, es[1..]);
    }
  }

  /** Any simple cycle that continues the path makes the search succeed, though perhaps with another cycle. */
  lemma {:induction false} SearchFinds(g: WorkflowGraph, agents: set<string>, src: string, path: seq<string>,
                                       ext: seq<string>)
    requires path != [] && path[0] == src
    requires IsCycle(Links(g), path + ext) && Distinct(path + ext) && |AgentsOn(agents, path + ext)| >= 2
    ensures Search(g, agents, src, path).Some?
    decreases |ext|, 1, 0
  {
    var full := path + ext;
    var next := if ext == [] then src else ext[0];
    var last := path[|path| - 1];
    assert (last, next) in Links(g) by {
      if ext == [] {
        assert full == path;
      } else {
        assert full[|path| - 1] == last && full[|path| - 1 + 1] == next;
      }
    }
    var e :| e in g.Edges && e.From == last && e.To == next;
    OutgoingEdgesAre(g.Edges, last);
    SearchEdgesFinds(g, agents, src, path, ext, OutgoingEdges(g.Edges, last), e);
  }

  lemma {:induction false} SearchEdgesFinds(g: WorkflowGraph, agents: set<string>, src: string, path: seq<string>,
                                            ext: seq<string>, es: seq<Edge>, e: Edge)
    requires path != [] && path[0] == src
    requires IsCycle(Links(g), path + ext) && Distinct(path + ext) && |AgentsOn(agents, path + ext)| >= 2
    requires e in es && e.To == if ext == [] then src else ext[0]
    requires e.To in g.Nodes
    ensures SearchEdges(g, agents, src, path, es).Some?
    decreases |ext|, 0, |es|
  {
    if e != es[0] {
      SearchEdgesFinds(g, agents, src, path, ext, es[1..], e);
    } else if ext == [] {
      assert path + ext == path;
      AgentsOnAre(agents, path);
    } else {
      var full := path + ext;
      forall i | 0 <= i < |path| ensures path[i] != ext[0] {
        assert full[i] != full[|path|];
      }
      assert full == (path + [ext[0]]) + ext[1..];
      SearchFinds(g, agents, src, path + [ext[0]], ext[1..]);
    }
  }

  /** For an agent the search succeeds exactly when a simple cycle through it carries another agent. */
  lemma SearchSucceedsIff(g: WorkflowGraph, src: string)
    requires src in AgentIDs(g)
    ensures Search(g, AgentIDs(g), src, [src]).Some? <==> OnDelegationCycle(g, src)
  {
    SearchIsSound(g, AgentIDs(g), src, [src]);
    if Search(g, AgentIDs(g), src, [src]).Some? {
      var p := Search(g, AgentIDs(g), src, [src]).value;
      assert DelegationCycle(g, p) && p[0] == src;
    }
    if OnDelegationCycle(g, src) {
      var c :| DelegationCycle(g, c) && src in c;
      var k :| 0 <= k < |c| && c[k] == src;
      RotateCycle(g, c, k);
      var d := c[k..] + c[..k];
      assert d == [src] + d[1..];
      SearchFinds(g, AgentIDs(g), src, [src], d[1..]);
    }
  }

  lemma RotateCycle(g: WorkflowGraph, c: seq<string>, k: nat)
    requires DelegationCycle(g, c) && k < |c|
    ensures DelegationCycle(g, c[k..] + c[..k])
  {
    RotateSimpleCycle(Links(g), c, k);
    AgentsOnConcat(AgentIDs(g), c[..k], c[k..]);
    AgentsOnConcat(AgentIDs(g), c[k..], c[..k]);
    assert c == c[..k] + c[k..];
  }

  // ----- The log

  function KeyOf(f: AgentFinding): Key {
    match f.Message
    case SelfHandoff => SelfKey(f.NodeID)
    case Delegation(members, _) => MembersKey(members)
  }

  /** What a single finding claims about the graph. */
  ghost predicate Justified(g: WorkflowGraph, f: AgentFinding) {
    f.RuleName == RULE && f.NodeID in AgentIDs(g) &&
    match f.Message
    case SelfHandoff =>
      SelfEdge(g, f.NodeID) && f.Severity == Info && f.Confidence == 0.6
    case Delegation(members, path) =>
      && f.Severity == Warning
      && |path| >= 2 && path[0] == path[|path| - 1] == f.NodeID
      && DelegationCycle(g, path[..|path| - 1])
      && SortedBy(StrLe, members) && Distinct(members)
      && (forall v :: v in members <==> v in path && v in AgentIDs(g))
      && f.Confidence == if |members| == 2 then 0.85 else 0.75
  }

  ghost predicate Logged(fs: seq<AgentFinding>, k: Key) {
    exists f :: f in fs && KeyOf(f) == k
  }

  ghost predicate LogOK(g: WorkflowGraph, log: Log) {
    && (forall f :: f in log.findings ==> Justified(g, f))
    && (forall k :: k in log.emitted <==> Logged(log.findings, k))
    && (forall i, j :: 0 <= i < j < |log.findings| ==> KeyOf(log.findings[i]) != KeyOf(log.findings[j]))
  }

  lemma EmitKeeps(g: WorkflowGraph, log: Log, key: Key, f: AgentFinding)
    requires LogOK(g, log) && Justified(g, f) && KeyOf(f) == key
    ensures LogOK(g, Emit(log, key, f))
    ensures log.emitted + {key} == Emit(log, key, f).emitted
  {
    if key !in log.emitted {
      LoggedSnoc(log.findings, f);
      forall i | 0 <= i < |log.findings| ensures KeyOf(log.findings[i]) != key {
        assert log.findings[i] in log.findings;
        assert Logged(log.findings, KeyOf(log.findings[i]));
      }
    }
  }

  lemma LoggedSnoc(fs: seq<AgentFinding>, f: AgentFinding)
    ensures forall k :: Logged(fs + [f], k) <==> Logged(fs, k) || k == KeyOf(f)
  {
    assert f in fs + [f];
    forall k | Logged(fs, k) ensures Logged(fs + [f], k) {
      var x :| x in fs && KeyOf(x) == k;
      assert x in fs + [f];
    }
  }

  lemma DistinctAgentsOn(agents: set<string>, path: seq<string>)
    requires Distinct(path)
    ensures Distinct(AgentsOn(agents, path))
  {
    if path != [] {
      DistinctAgentsOn(agents, path[1..]);
      AgentsOnAre(agents, path[1..]);
    }
  }

  lemma MultisetOfDistinct(s: seq<string>)
    requires Distinct(s)
    ensures multiset(s) == multiset(set v | v in s)
  {
    if s != [] {
      MultisetOfDistinct(s[1..]);
      assert s == [s[0]] + s[1..];
      assert (set v | v in s) == {s[0]} + set v | v in s[1..];
      assert s[0] !in s[1..];
    }
  }

  lemma DistinctOfMultiset(s: seq<string>)
    requires forall v :: multiset(s)[v] <= 1
    ensures Distinct(s)
  {
    forall i, j | 0 <= i < j < |s| ensures s[i] != s[j] {
      var a, b, c := s[..i], s[i + 1..j], s[j + 1..];
      assert s == a + [s[i]] + b + [s[j]] + c;
      assert multiset(s)[s[i]] <= 1;
    }
  }

  lemma MembersAre(agents: set<string>, path: seq<string>)
    requires Distinct(path)
    ensures var m := Members(agents, path);
            SortedBy(StrLe, m) && Distinct(m) && forall v :: v in m <==> v in path && v in agents
  {
    var a, m := AgentsOn(agents, path), Members(agents, path);
    StrLeIsTotalPreorder();
    SortedIsSorted(StrLe, a);
    SortedMultiset(StrLe, a);
    DistinctAgentsOn(agents, path);
    AgentsOnAre(agents, path);
    MultisetOfDistinct(a);
    DistinctOfMultiset(m);
    forall v ensures v in m <==> v in a {
      SameElements(m, a, v);
    }
  }

  lemma CycleFindingJustified(g: WorkflowGraph, src: string)
    requires src in AgentIDs(g) && Search(g, AgentIDs(g), src, [src]).Some?
    ensures var p := Search(g, AgentIDs(g), src, [src]).value;
            Justified(g, CycleFinding(AgentIDs(g), src, p)) && src in Members(AgentIDs(g), p)
  {
    var p := Search(g, AgentIDs(g), src, [src]).value;
    SearchIsSound(g, AgentIDs(g), src, [src]);
    assert p[0] == src;
    MembersAre(AgentIDs(g), p);
    var path := p + [src];
    assert path[..|path| - 1] == p;
  }

  /** Each source leaves the log consistent, with its self edge and its delegation cycle on record. */
  lemma AfterSourceKeeps(g: WorkflowGraph, src: string, log: Log)
    requires LogOK(g, log) && src in AgentIDs(g)
    ensures var r := AfterSource(g, AgentIDs(g), src, log);
            LogOK(g, r) && log.emitted <= r.emitted && Recorded(g, r, src)
  {
    var log' := if SelfEdge(g, src) then Emit(log, SelfKey(src), SelfFinding(src)) else log;
    if SelfEdge(g, src) {
      EmitKeeps(g, log, SelfKey(src), SelfFinding(src));
    }
    SearchSucceedsIff(g, src);
    if Search(g, AgentIDs(g), src, [src]).Some? {
      var p := Search(g, AgentIDs(g), src, [src]).value;
      CycleFindingJustified(g, src);
      EmitKeeps(g, log', MembersKey(Members(AgentIDs(g), p)), CycleFinding(AgentIDs(g), src, p));
    }
  }

  ghost predicate Recorded(g: WorkflowGraph, log: Log, v: string) {
    && (SelfEdge(g, v) ==> SelfKey(v) in log.emitted)
    && (OnDelegationCycle(g, v) ==> exists ms :: MembersKey(ms) in log.emitted && v in ms)
  }

  lemma {:induction false} AfterSourcesKeeps(g: WorkflowGraph, srcs: seq<string>, log: Log)
    requires LogOK(g, log) && forall v :: v in srcs ==> v in AgentIDs(g)
    ensures var r := AfterSources(g, AgentIDs(g), srcs, log);
            LogOK(g, r) && log.emitted <= r.emitted && forall v :: v in srcs ==> Recorded(g, r, v)
  {
    if srcs != [] {
      assert srcs[0] in srcs;
      var next := AfterSource(g, AgentIDs(g), srcs[0], log);
      AfterSourceKeeps(g, srcs[0], log);
      AfterSourcesKeeps(g, srcs[1..], next);
      var r := AfterSources(g, AgentIDs(g), srcs, log);
      forall v | v in srcs ensures Recorded(g, r, v) {
        if v == srcs[0] && OnDelegationCycle(g, v) {
          var ms :| MembersKey(ms) in next.emitted && v in ms;
          assert MembersKey(ms) in r.emitted;
        }
      }
    }
  }

  // ----- Main results

  ghost predicate ListsAgents(g: WorkflowGraph, srcs: seq<string>) {
    SortedBy(StrLe, srcs) && multiset(srcs) == multiset(AgentIDs(g))
  }

  ghost function Report(g: WorkflowGraph, srcs: seq<string>): seq<AgentFinding> {
    AfterSources(g, AgentIDs(g), srcs, Log({}, [])).findings
  }

  lemma RunIsOK(g: WorkflowGraph, srcs: seq<string>)
    requires ListsAgents(g, srcs)
    ensures var r := AfterSources(g, AgentIDs(g), srcs, Log({}, []));
            LogOK(g, r) && forall v :: v in AgentIDs(g) ==> Recorded(g, r, v)
  {
    forall v ensures v in srcs <==> v in AgentIDs(g) {
      assert v in srcs <==> v in multiset(srcs);
    }
    AfterSourcesKeeps(g, srcs, Log({}, []));
  }

  /**
   * An agent is named in some reported delegation cycle exactly when a simple cycle through it carries another agent.
   */
  lemma ReportedMembersAreExact(g: WorkflowGraph, srcs: seq<string>, v: string)
    requires ListsAgents(g, srcs) && v in AgentIDs(g)
    ensures OnDelegationCycle(g, v) <==>
            exists f :: f in Report(g, srcs) && f.Message.Delegation? && v in f.Message.members
  {
    RunIsOK(g, srcs);
    var r := AfterSources(g, AgentIDs(g), srcs, Log({}, []));
    if OnDelegationCycle(g, v) {
      var ms :| MembersKey(ms) in r.emitted && v in ms;
      assert Logged(r.findings, MembersKey(ms));
      var f :| f in r.findings && KeyOf(f) == MembersKey(ms);
      assert f.Message.Delegation?;
    }
    if f :| f in Report(g, srcs) && f.Message.Delegation? && v in f.Message.members {
      MembersAreOnCycle(g, f, v);
    }
  }

  lemma MembersAreOnCycle(g: WorkflowGraph, f: AgentFinding, v: string)
    requires Justified(g, f) && f.Message.Delegation? && v in f.Message.members
    ensures OnDelegationCycle(g, v)
  {
    var path := f.Message.path;
    var k :| 0 <= k < |path| && path[k] == v;
    assert path[..|path| - 1][if k == |path| - 1 then 0 else k] == v;
  }

  /** Every finding is real: the path is a simple closed one and `members` are exactly the agents on it. */
  lemma ReportsAreReal(g: WorkflowGraph, srcs: seq<string>, f: AgentFinding)
    requires ListsAgents(g, srcs) && f in Report(g, srcs)
    ensures Justified(g, f)
  {
    RunIsOK(g, srcs);
  }

  /** No two delegation findings name the same set of agents. */
  lemma NoMemberSetTwice(g: WorkflowGraph, srcs: seq<string>, i: nat, j: nat)
    requires ListsAgents(g, srcs) && i < j < |Report(g, srcs)|
    requires Report(g, srcs)[i].Message.Delegation? && Report(g, srcs)[j].Message.Delegation?
    ensures Elements(Report(g, srcs)[i].Message.members) != Elements(Report(g, srcs)[j].Message.members)
  {
    RunIsOK(g, srcs);
    var a, b := Report(g, srcs)[i], Report(g, srcs)[j];
    assert Justified(g, a) && Justified(g, b) && KeyOf(a) != KeyOf(b);
    if Elements(a.Message.members) == Elements(b.Message.members) {
      MultisetOfDistinct(a.Message.members);
      MultisetOfDistinct(b.Message.members);
      assert (set v | v in a.Message.members) == Elements(a.Message.members);
      assert (set v | v in b.Message.members) == Elements(b.Message.members);
      SortedStringsUnique(a.Message.members, b.Message.members);
      assert false;
    }
  }

  /** Self hand-offs: one finding for each agent with an edge to itself, none for the others. */
  lemma SelfReportsAreExact(g: WorkflowGraph, srcs: seq<string>, v: string)
    requires ListsAgents(g, srcs) && v in AgentIDs(g)
    ensures SelfEdge(g, v) <==> exists f :: f in Report(g, srcs) && f.Message.SelfHandoff? && f.NodeID == v
    ensures forall i, j :: 0 <= i < j < |Report(g, srcs)|
              && Report(g, srcs)[i].Message.SelfHandoff? && Report(g, srcs)[j].Message.SelfHandoff?
              ==> Report(g, srcs)[i].NodeID != Report(g, srcs)[j].NodeID
  {
    RunIsOK(g, srcs);
    var r := AfterSources(g, AgentIDs(g), srcs, Log({}, []));
    if SelfEdge(g, v) {
      assert Logged(r.findings, SelfKey(v));
      var f :| f in r.findings && KeyOf(f) == SelfKey(v);
      assert f.Message.SelfHandoff?;
    }
    assert forall i, j :: 0 <= i < j < |r.findings| ==> KeyOf(r.findings[i]) != KeyOf(r.findings[j]);
  }

  // ----- Only simple cycles count

  function Agent(id: string): Node {
    Node(id, id, LLM, map["agent_role" := Str("worker")], None, "", SourcePos("", 0), false)
  }

  /** Agents a and b delegate to each other, both ways through the router h. */
  function SharedHub(): WorkflowGraph {
    WorkflowGraph(
      map["a" := Agent("a"), "b" := Agent("b"), "h" := Node("h", "h", Tool, map[], None, "", SourcePos("", 0), false)],
      [Edge("a", "h", ""), Edge("h", "b", ""), Edge("b", "h", ""), Edge("h", "a", "")],
      "a", false)
  }

  /** Two agents may each reach the other and still not be reported: every walk back passes the router twice. */
  lemma MutualDelegationMayGoUnreported(srcs: seq<string>)
    requires ListsAgents(SharedHub(), srcs)
    ensures Reaches(Links(SharedHub()), "a", "b") && Reaches(Links(SharedHub()), "b", "a")
    ensures forall f :: f in Report(SharedHub(), srcs) ==> !f.Message.Delegation?
  {
    var g := SharedHub();
    SharedHubLinks();
    ReachesEdge(Links(g), "a", "h");
    ReachesStep(Links(g), "a", "h", "b");
    ReachesEdge(Links(g), "b", "h");
    ReachesStep(Links(g), "b", "h", "a");
    forall f | f in Report(g, srcs) ensures !f.Message.Delegation? {
      ReportsAreReal(g, srcs, f);
      if f.Message.Delegation? {
        NoSimpleCycleThroughBoth(f.Message.path[..|f.Message.path| - 1]);
      }
    }
  }

  lemma SharedHubLinks()
    ensures Links(SharedHub()) == {("a", "h"), ("h", "b"), ("b", "h"), ("h", "a")}
    ensures AgentIDs(SharedHub()) == {"a", "b"}
  {
    var es := SharedHub().Edges;
    assert es[0] in es && es[1] in es && es[2] in es && es[3] in es;
  }

  lemma TurnsToTheHub(c: seq<string>, i: nat)
    requires IsCycle(Links(SharedHub()), c) && i < |c| && c[i] in {"a", "b"}
    ensures c[if i == |c| - 1 then 0 else i + 1] == "h"
  {
    SharedHubLinks();
    if i < |c| - 1 {
      assert (c[i], c[i + 1]) in Links(SharedHub());
    }
  }

  lemma NoSimpleCycleThroughBoth(c: seq<string>)
    ensures !DelegationCycle(SharedHub(), c)
  {
    if DelegationCycle(SharedHub(), c) {
      SharedHubLinks();
      var agents := AgentsOn({"a", "b"}, c);
      DistinctAgentsOn({"a", "b"}, c);
      AgentsOnAre({"a", "b"}, c);
      assert agents[0] in agents && agents[1] in agents && agents[0] != agents[1];
      var i: nat :| i < |c| && c[i] == "a";
      var j: nat :| j < |c| && c[j] == "b";
      TurnsToTheHub(c, i);
      TurnsToTheHub(c, j);
    }
  }
}
