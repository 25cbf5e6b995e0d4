/** circular_dep_agents: a backtracking search for delegation cycles, with reports deduplicated by member set. */
module CircularAgents {
  import opened Domain
  import opened Ordering
  import opened Paths

  const RULE := "circular_dep_agents"

  /** `path` starts and ends at the agent the search began from. */
  datatype AgentMessage =
    | SelfHandoff
    | Delegation(members: seq<string>, path: seq<string>)

  type AgentFinding = Finding<AgentMessage>

  /** The source joins member names with "|" and prefixes self references; a datatype keeps the keys apart. */
  datatype Key = SelfKey(agent: string) | MembersKey(members: seq<string>)

  predicate IsAgentNode(n: Node) {
    n.Type == LLM
    && (ConfigString(n.Config, "agent_role") != ""
        || ("sub_agents" in n.Config
            && match n.Config["sub_agents"]
               case Null => false
               case Arr(items) => items != []
               case Strs(strs) => strs != []
               case _ => true))
  }

  ghost function AgentIDs(g: WorkflowGraph): set<string> {
    set v | v in g.Nodes && IsAgentNode(g.Nodes[v])
  }

  // ----- The search as a function of the current path

  function AgentsOn(agents: set<string>, path: seq<string>): seq<string> {
    if path == [] then []
    else (if path[0] in agents then [path[0]] else []) + AgentsOn(agents, path[1..])
  }

  function Members(agents: set<string>, path: seq<string>): seq<string> {
    Sorted(StrLe, AgentsOn(agents, path))
  }

  /**
   * The first path, in edge order, that extends `path` to a closed one
   * with a second agent; its nodes are the visited ones.
   */
  ghost function Search(g: WorkflowGraph, agents: set<string>, src: string, path: seq<string>): Option<seq<string>>
    requires path != []
    decreases g.Nodes.Keys - Elements(path), 1, 0
  {
    SearchEdges(g, agents, src, path, OutgoingEdges(g.Edges, path[|path| - 1]))
  }

  ghost function SearchEdges(g: WorkflowGraph, agents: set<string>, src: string, path: seq<string>,
                             es: seq<Edge>): Option<seq<string>>
    requires path != []
    decreases g.Nodes.Keys - Elements(path), 0, |es|
  {
    if es == [] then None
    else
      var next := es[0].To;
      if next == src && |path| >= 2 then
        if |AgentsOn(agents, path)| >= 2 then Some(path) else SearchEdges(g, agents, src, path, es[1..])
      else if next in path || next !in g.Nodes then
        SearchEdges(g, agents, src, path, es[1..])
      else
        assert next in g.Nodes.Keys - Elements(path) && next !in g.Nodes.Keys - Elements(path + [next]);
        var found := Search(g, agents, src, path + [next]);
        if found.Some? then found else SearchEdges(g, agents, src, path, es[1..])
  }

  // ----- The report log

  datatype Log = Log(emitted: set<Key>, findings: seq<AgentFinding>)

  function Emit(log: Log, key: Key, f: AgentFinding): Log {
    if key in log.emitted then log else Log(log.emitted + {key}, log.findings + [f])
  }

  function SelfFinding(src: string): AgentFinding {
    NewFinding(RULE, Info, src, SelfHandoff, 0.6)
  }

  function CycleFinding(agents: set<string>, src: string, path: seq<string>): AgentFinding {
    var members := Members(agents, path);
    NewFinding(RULE, Warning, src, Delegation(members, path + [src]), if |members| == 2 then 0.85 else 0.75)
  }

  function ReportedCycle(log: Log, agents: set<string>, src: string, path: seq<string>): Log {
    Emit(log, MembersKey(Members(agents, path)), CycleFinding(agents, src, path))
  }

  ghost predicate SelfEdge(g: WorkflowGraph, v: string) {
    exists e :: e in g.Edges && e.From == v && e.To == v
  }

  ghost function AfterSource(g: WorkflowGraph, agents: set<string>, src: string, log: Log): Log {
    var log' := if SelfEdge(g, src) then Emit(log, SelfKey(src), SelfFinding(src)) else log;
    match Search(g, agents, src, [src])
    case None => log'
    case Some(path) => ReportedCycle(log', agents, src, path)
  }

  ghost function AfterSources(g: WorkflowGraph, agents: set<string>, srcs: seq<string>, log: Log): Log {
    if srcs == [] then log else AfterSources(g, agents, srcs[1..], AfterSource(g, agents, srcs[0], log))
  }

  // ----- The search as it runs

  /** The closure's shared variables: the backtracking path and visited set, and the report log. */
  class Searcher {
    const g: WorkflowGraph
    const agentIDs: set<string>
    var visited: set<string>
    var path: seq<string>
    var emitted: set<Key>
    var findings: seq<AgentFinding>

    constructor (g: WorkflowGraph, agentIDs: set<string>)
      ensures this.g == g && this.agentIDs == agentIDs && Reports() == Log({}, [])
    {
      this.g, this.agentIDs := g, agentIDs;
      visited, path, emitted, findings := {}, [], {}, [];
    }

    ghost function Reports(): Log
      reads this
    {
      Log(emitted, findings)
    }

    ghost predicate OnTrack()
      reads this
    {
      path != [] && Distinct(path) && visited == Elements(path)
    }

    method Report(key: Key, f: AgentFinding)
      modifies this`emitted, this`findings
      ensures Reports() == Emit(old(Reports()), key, f)
    {
      if key !in emitted {
        emitted := emitted + {key};
        findings := findings + [f];
      }
    }

    method CollectMembers() returns (members: seq<string>)
      requires Distinct(path)
      ensures members == AgentsOn(agentIDs, path)
    {
      var seen: set<string> := {};
      members := [];
      for i := 0 to |path|
        invariant forall v :: v in seen ==> v in path[..i]
        invariant AgentsOn(agentIDs, path) == members + AgentsOn(agentIDs, path[i..])
      {
        assert path[i..][1..] == path[i + 1..];
        if path[i] in agentIDs && path[i] !in seen {
          seen := seen + {path[i]};
          members := members + [path[i]];
        }
      }
    }

    /** Report the closed path if a second agent is on it. */
    method TryReport(src: string) returns (found: bool)
      requires Distinct(path)
      modifies this`emitted, this`findings
      ensures found <==> |AgentsOn(agentIDs, path)| >= 2
      ensures !found ==> Reports() == old(Reports())
      ensures found ==> Reports() == ReportedCycle(old(Reports()), agentIDs, src, path)
    {
      var members := CollectMembers();
      found := |members| >= 2;
      if found {
        StrLeIsTotalPreorder();
        var sorted := SortSliceStable(StrLe, members);
        Report(MembersKey(sorted), CycleFinding(agentIDs, src, path));
      }
    }

    method Push(node: string)
      modifies this`visited, this`path
      ensures visited == old(visited) + {node} && path == old(path) + [node]
    {
      visited := visited + {node};
      path := path + [node];
    }

    method Pop(node: string)
      requires path != []
      modifies this`visited, this`path
      ensures visited == old(visited) - {node} && path == old(path[..|path| - 1])
    {
      path := path[..|path| - 1];
      visited := visited - {node};
    }

    method Dfs(src: string) returns (found: bool)
      requires OnTrack()
      modifies this
      ensures found <==> Search(g, agentIDs, src, old(path)).Some?
      ensures !found ==> path == old(path) && visited == old(visited) && Reports() == old(Reports())
      ensures found ==>
                Reports() == ReportedCycle(old(Reports()), agentIDs, src, Search(g, agentIDs, src, old(path)).value)
      decreases g.Nodes.Keys - visited
    {
      var es := OutgoingEdges(g.Edges, path[|path| - 1]);
      for i := 0 to |es|
        invariant path == old(path) && visited == old(visited) && Reports() == old(Reports())
        invariant Search(g, agentIDs, src, old(path)) == SearchEdges(g, agentIDs, src, old(path), es[i..])
      {
        var next := es[i].To;
        assert es[i..][1..] == es[i + 1..];
        if next == src && |path| >= 2 {
          found := TryReport(src);
          if found {
            return;
          }
        } else if next !in visited && next in g.Nodes {
          assert next in g.Nodes.Keys - old(visited) && next !in g.Nodes.Keys - (old(visited) + {next});
          DistinctSnoc(old(path), next);
          Push(next);
          found := Dfs(src);
          if found {
            return;
          }
          Pop(next);
          assert path == old(path) && visited == old(visited);
        }
      }
      return false;
    }

    method RunSource(src: string)
      modifies this
      ensures Reports() == AfterSource(g, agentIDs, src, old(Reports()))
    {
      OutgoingEdgesAre(g.Edges, src);
      var out := OutgoingEdges(g.Edges, src);
      var selfDetected := false;
      for i := 0 to |out|
        invariant !selfDetected && forall j :: 0 <= j < i ==> out[j].To != src
      {
        if out[i].To == src {
          selfDetected := true;
          break;
        }
      }
      assert selfDetected <==> SelfEdge(g, src) by {
        if SelfEdge(g, src) {
          var e :| e in g.Edges && e.From == src && e.To == src;
          assert e in out;
        }
      }
      if selfDetected {
        Report(SelfKey(src), SelfFinding(src));
      }
      visited, path := {src}, [src];
      var _ := Dfs(src);
    }
  }

  /** Agent identifiers in string order, whatever the order of the node map. */
  method Sources(g: WorkflowGraph) returns (srcs: seq<string>)
    ensures SortedBy(StrLe, srcs) && multiset(srcs) == multiset(AgentIDs(g))
  {
    var out: seq<string> := [];
    var rest := g.Nodes.Keys;
    ghost var taken: set<string> := {};
    while rest != {}
      invariant rest <= g.Nodes.Keys && multiset(out) == multiset(taken)
      invariant taken == set v | v in g.Nodes.Keys - rest && IsAgentNode(g.Nodes[v])
      decreases rest
    {
      var id :| id in rest;
      if IsAgentNode(g.Nodes[id]) {
        out := out + [id];
        taken := taken + {id};
      }
      rest := rest - {id};
    }
    assert taken == AgentIDs(g);
    StrLeIsTotalPreorder();
    srcs := SortSlice(StrLe, out);
  }
}
