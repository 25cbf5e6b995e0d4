/** cost_estimation's loop search: a depth-first walk that marks its whole stack at every back edge. */
module LoopNodes {
  import opened Domain
  import opened Paths
  import opened DepthFirst

  datatype Run = Run(state: VisitStates, inLoop: set<string>)

  ghost function Visit(g: WorkflowGraph, id: string, stack: seq<string>, s: Run): (r: Run)
    requires id in g.Nodes && id !in s.state
    ensures s.state.Keys + {id} <= r.state.Keys
    decreases g.Nodes.Keys - s.state.Keys, 0
  {
    var entered := s.(state := s.state[id := InProgress]);
    assert id in g.Nodes.Keys - s.state.Keys && id !in g.Nodes.Keys - entered.state.Keys;
    var r := VisitEdges(g, OutgoingEdges(g.Edges, id), stack + [id], entered);
    r.(state := r.state[id := Completed])
  }

  ghost function VisitEdges(g: WorkflowGraph, es: seq<Edge>, stack: seq<string>, s: Run): (r: Run)
    ensures s.state.Keys <= r.state.Keys
    decreases g.Nodes.Keys - s.state.Keys, |es|
  {
    if es == [] then s else VisitEdges(g, es[1..], stack, VisitEdge(g, es, stack, s))
  }

  ghost function VisitEdge(g: WorkflowGraph, es: seq<Edge>, stack: seq<string>, s: Run): (r: Run)
    requires es != []
    ensures s.state.Keys <= r.state.Keys
    decreases g.Nodes.Keys - s.state.Keys, |es|, 0
  {
    var target := es[0].To;
    if target in s.state then
      if s.state[target] == InProgress then s.(inLoop := s.inLoop + Elements(stack)) else s
    else if target in g.Nodes then Visit(g, target, stack, s)
    else s
  }

  ghost function VisitRoots(g: WorkflowGraph, ids: seq<string>, s: Run): Run
    requires forall v :: v in ids ==> v in g.Nodes
  {
    if ids == [] then s
    else VisitRoots(g, ids[1..], if ids[0] in s.state then s else Visit(g, ids[0], [], s))
  }

  const EMPTY_RUN := Run(map[], {})

  ghost function FromEntry(g: WorkflowGraph): Run {
    if g.EntryNodeID in g.Nodes then Visit(g, g.EntryNodeID, [], EMPTY_RUN) else EMPTY_RUN
  }

  ghost predicate ListsAll(g: WorkflowGraph, order: seq<string>) {
    forall v :: v in order <==> v in g.Nodes
  }

  /** The marks, given the order in which the node map is ranged over. */
  ghost function Marks(g: WorkflowGraph, order: seq<string>): set<string>
    requires ListsAll(g, order)
  {
    VisitRoots(g, order, FromEntry(g)).inLoop
  }

  /** The closure's shared variables. */
  class Marker {
    const g: WorkflowGraph
    var state: VisitStates
    var stack: seq<string>
    var inLoop: set<string>

    constructor (g: WorkflowGraph)
      ensures this.g == g && Value() == EMPTY_RUN && stack == []
    {
      this.g := g;
      state, stack, inLoop := map[], [], {};
    }

    ghost function Value(): Run
      reads this
    {
      Run(state, inLoop)
    }

    method Dfs(id: string)
      requires id in g.Nodes && id !in state
      modifies this
      ensures Value() == Visit(g, id, old(stack), old(Value())) && stack == old(stack)
      decreases g.Nodes.Keys - state.Keys
    {
      state := state[id := InProgress];
      stack := stack + [id];
      var es := OutgoingEdges(g.Edges, id);
      ghost var entered := Value();
      for i := 0 to |es|
        invariant VisitEdges(g, es, stack, entered) == VisitEdges(g, es[i..], stack, Value())
        invariant stack == old(stack) + [id] && old(state.Keys) + {id} <= state.Keys
      {
        var target := es[i].To;
        assert es[i..][1..] == es[i + 1..];
        if target in state {
          if state[target] == InProgress {
            MarkStack();
          }
        } else if target in g.Nodes {
          assert id in g.Nodes.Keys - old(state.Keys) && id !in g.Nodes.Keys - state.Keys;
          Dfs(target);
        }
      }
      stack := stack[..|stack| - 1];
      state := state[id := Completed];
    }

    method MarkStack()
      modifies this`inLoop
      ensures inLoop == old(inLoop) + Elements(stack)
    {
      for i := 0 to |stack|
        invariant inLoop == old(inLoop) + Elements(stack[..i])
      {
        inLoop := inLoop + {stack[i]};
      }
      assert stack[..|stack|] == stack;
    }
  }

  // ----- The search invariant

  ghost predicate ReachesCycle(g: WorkflowGraph, v: string) {
    exists w :: Reaches(Links(g), v, w) && OnSimpleCycle(Links(g), w)
  }

  /** Edges whose source is marked. */
  ghost function Accounted(g: WorkflowGraph, inLoop: set<string>): set<(string, string)> {
    set p | p in Links(g) && p.0 in inLoop
  }

  ghost predicate Good(g: WorkflowGraph, stack: seq<string>, s: Run) {
    && Sweeps(g, stack, s.state, Accounted(g, s.inLoop)) && s.inLoop <= s.state.Keys
    && forall v :: v in s.inLoop ==> ReachesCycle(g, v)
  }

  /** Progress from s to r; any new mark comes with the whole stack. */
  ghost predicate Grows(stack: seq<string>, s: Run, r: Run) {
    && s.state.Keys <= r.state.Keys
    && s.inLoop <= r.inLoop
    && (r.inLoop == s.inLoop || Elements(stack) <= r.inLoop)
    && (forall v :: Done(s.state, v) ==> Done(r.state, v))
  }

  /** At a back edge every node on the stack can reach the cycle it closes. */
  lemma StackReachesCycle(g: WorkflowGraph, stack: seq<string>, target: string)
    requires stack != [] && IsWalk(Links(g), stack) && Distinct(stack) && target in stack
    requires (stack[|stack| - 1], target) in Links(g)
    ensures forall v :: v in stack ==> ReachesCycle(g, v)
  {
    var i :| 0 <= i < |stack| && stack[i] == target;
    var n := |stack| - 1;
    WalkSegment(Links(g), stack, i, n);
    var c := stack[i..n + 1];
    assert |c| == n - i + 1 && c[0] == stack[i] && c[|c| - 1] == stack[n];
    assert IsCycle(Links(g), c);
    assert Distinct(c);
    assert OnSimpleCycle(Links(g), stack[n]);
    forall v | v in stack ensures ReachesCycle(g, v) {
      var k :| 0 <= k < |stack| && stack[k] == v;
      WalkSegment(Links(g), stack, k, n);
    }
  }

  lemma BackEdgeKeeps(g: WorkflowGraph, stack: seq<string>, target: string, s: Run)
    requires Good(g, stack, s) && target in stack && (stack[|stack| - 1], target) in Links(g)
    ensures Good(g, stack, s.(inLoop := s.inLoop + Elements(stack)))
  {
    StackReachesCycle(g, stack, target);
    CoversGrows(g, s.state, s.state, Accounted(g, s.inLoop), Accounted(g, s.inLoop + Elements(stack)));
  }

  lemma {:induction false} VisitKeeps(g: WorkflowGraph, id: string, stack: seq<string>, s: Run)
    requires Good(g, stack, s) && id in g.Nodes && id !in s.state
    requires stack != [] ==> (stack[|stack| - 1], id) in Links(g)
    ensures var r := Visit(g, id, stack, s);
            Good(g, stack, r) && Grows(stack + [id], s, r) && Done(r.state, id)
    decreases g.Nodes.Keys - s.state.Keys, 0
  {
    var entered := s.(state := s.state[id := InProgress]);
    assert id in g.Nodes.Keys - s.state.Keys && id !in g.Nodes.Keys - entered.state.Keys;
    EnterKeeps(g, id, stack, s.state, Accounted(g, s.inLoop));
    OutgoingEdgesAre(g.Edges, id);
    var es := OutgoingEdges(g.Edges, id);
    VisitEdgesKeeps(g, es, stack + [id], entered);
    var r := VisitEdges(g, es, stack + [id], entered);
    forall w | (id, w) in Links(g) ensures Handled(g, r.state, Accounted(g, r.inLoop), id, w) {
      var e :| e in g.Edges && e.From == id && e.To == w;
      assert e in es;
    }
    LeaveKeeps(g, id, stack, r.state, Accounted(g, r.inLoop));
  }

  lemma {:induction false} VisitEdgeKeeps(g: WorkflowGraph, es: seq<Edge>, stack: seq<string>, s: Run)
    requires Good(g, stack, s) && stack != [] && stack[|stack| - 1] in g.Nodes
    requires es != [] && es[0] in g.Edges && es[0].From == stack[|stack| - 1]
    ensures var t := VisitEdge(g, es, stack, s);
            && Good(g, stack, t) && Grows(stack, s, t)
            && Handled(g, t.state, Accounted(g, t.inLoop), stack[|stack| - 1], es[0].To)
    decreases g.Nodes.Keys - s.state.Keys, |es|, 0
  {
    var target := es[0].To;
    if target in s.state {
      if s.state[target] == InProgress {
        BackEdgeKeeps(g, stack, target, s);
      }
    } else if target in g.Nodes {
      VisitKeeps(g, target, stack, s);
      assert Elements(stack) <= Elements(stack + [target]);
    }
  }

  lemma {:induction false} VisitEdgesKeeps(g: WorkflowGraph, es: seq<Edge>, stack: seq<string>, s: Run)
    requires Good(g, stack, s) && stack != [] && stack[|stack| - 1] in g.Nodes
    requires forall e :: e in es ==> e in g.Edges && e.From == stack[|stack| - 1]
    ensures var r := VisitEdges(g, es, stack, s);
            && Good(g, stack, r) && Grows(stack, s, r)
            && forall e :: e in es ==> Handled(g, r.state, Accounted(g, r.inLoop), stack[|stack| - 1], e.To)
    decreases g.Nodes.Keys - s.state.Keys, |es|
  {
    if es != [] {
      var u, target := stack[|stack| - 1], es[0].To;
      assert es[0] in es;
      var t := VisitEdge(g, es, stack, s);
      VisitEdgeKeeps(g, es, stack, s);
      VisitEdgesKeeps(g, es[1..], stack, t);
      var r := VisitEdges(g, es, stack, s);
      HandledGrows(g, stack, t.state, r.state, Accounted(g, t.inLoop), Accounted(g, r.inLoop), u, target);
      forall e | e in es ensures Handled(g, r.state, Accounted(g, r.inLoop), u, e.To) {
        assert e == es[0] || e in es[1..];
      }
    }
  }

  lemma {:induction false} VisitRootsKeeps(g: WorkflowGraph, ids: seq<string>, s: Run)
    requires Good(g, [], s) && forall v :: v in ids ==> v in g.Nodes
    ensures var r := VisitRoots(g, ids, s);
            Good(g, [], r) && Grows([], s, r) && forall v :: v in ids ==> Done(r.state, v)
  {
    if ids != [] {
      assert ids[0] in ids;
      var t := if ids[0] in s.state then s else Visit(g, ids[0], [], s);
      if ids[0] !in s.state {
        VisitKeeps(g, ids[0], [], s);
      }
      assert Done(t.state, ids[0]);
      VisitRootsKeeps(g, ids[1..], t);
      forall v | v in ids ensures Done(VisitRoots(g, ids, s).state, v) {
        assert v == ids[0] || v in ids[1..];
      }
    }
  }

  lemma FromEntryIsGood(g: WorkflowGraph)
    ensures Good(g, [], FromEntry(g))
    ensures g.EntryNodeID in g.Nodes ==>
              Done(FromEntry(g).state, g.EntryNodeID) && Grows([g.EntryNodeID], EMPTY_RUN, FromEntry(g))
  {
    if g.EntryNodeID in g.Nodes {
      VisitKeeps(g, g.EntryNodeID, [], EMPTY_RUN);
      assert [] + [g.EntryNodeID] == [g.EntryNodeID];
    }
  }

  // ----- When exactly a node is marked

  /** A walk from id over nodes not visited yet. */
  ghost predicate FreshWalk(g: WorkflowGraph, state: VisitStates, w: seq<string>, id: string) {
    IsWalk(Links(g), w) && w[0] == id && forall v :: v in w ==> v !in state
  }

  /** Its last node leads to one of these. */
  ghost predicate EndsInto(g: WorkflowGraph, w: seq<string>, targets: set<string>) {
    w != [] && exists x :: x in targets && (w[|w| - 1], x) in Links(g)
  }

  /** Some walk over unvisited nodes runs from id into itself or back onto the stack. */
  ghost predicate Closes(g: WorkflowGraph, stack: seq<string>, state: VisitStates, id: string) {
    exists w :: FreshWalk(g, state, w, id) && EndsInto(g, w, Elements(stack) + Elements(w))
  }

  /** What makes an edge to t set marks. */
  ghost predicate EdgeCloses(g: WorkflowGraph, stack: seq<string>, state: VisitStates, t: string) {
    t in g.Nodes && (t in stack || (t !in state && Closes(g, stack, state, t)))
  }

  lemma ClosesEarlier(g: WorkflowGraph, stack: seq<string>, state: VisitStates, later: VisitStates, t: string)
    requires EdgeCloses(g, stack, later, t) && state.Keys <= later.Keys
    ensures EdgeCloses(g, stack, state, t)
  {
    if t !in stack {
      var w :| FreshWalk(g, later, w, t) && EndsInto(g, w, Elements(stack) + Elements(w));
      assert FreshWalk(g, state, w, t);
    }
  }

  /** A closing edge out of id makes id itself close, before it was put on the stack. */
  lemma ClosesThrough(g: WorkflowGraph, stack: seq<string>, state: VisitStates, id: string, t: string)
    requires id !in state && (id, t) in Links(g) && EdgeCloses(g, stack + [id], state[id := InProgress], t)
    ensures Closes(g, stack, state, id)
  {
    var w := [id];
    if t !in stack + [id] {
      var rest :|
        FreshWalk(g, state[id := InProgress], rest, t) && EndsInto(g, rest, Elements(stack + [id]) + Elements(rest));
      w := [id] + rest;
      forall i | 0 <= i < |w| - 1 ensures (w[i], w[i + 1]) in Links(g) {
        if i > 0 {
          assert (rest[i - 1], rest[i - 1 + 1]) in Links(g);
        }
      }
      assert w[|w| - 1] == rest[|rest| - 1];
      assert Elements(stack + [id]) + Elements(rest) == Elements(stack) + Elements(w);
    } else {
      assert Elements(stack) + Elements(w) == Elements(stack + [id]);
      assert t in Elements(stack + [id]);
    }
    assert FreshWalk(g, state, w, id) && EndsInto(g, w, Elements(stack) + Elements(w));
  }

  /** New marks come from a closing edge... */
  lemma {:induction false} VisitMarksOnlyIf(g: WorkflowGraph, id: string, stack: seq<string>, s: Run)
    requires Good(g, stack, s) && id in g.Nodes && id !in s.state
    requires stack != [] ==> (stack[|stack| - 1], id) in Links(g)
    ensures Visit(g, id, stack, s).inLoop != s.inLoop ==> Closes(g, stack, s.state, id)
    decreases g.Nodes.Keys - s.state.Keys, 0
  {
    var entered := s.(state := s.state[id := InProgress]);
    assert id in g.Nodes.Keys - s.state.Keys && id !in g.Nodes.Keys - entered.state.Keys;
    EnterKeeps(g, id, stack, s.state, Accounted(g, s.inLoop));
    var es := OutgoingEdges(g.Edges, id);
    OutgoingEdgesAre(g.Edges, id);
    EdgesMarkOnlyIf(g, es, stack + [id], entered);
    if VisitEdges(g, es, stack + [id], entered).inLoop != s.inLoop {
      var e :| e in es && EdgeCloses(g, stack + [id], entered.state, e.To);
      ClosesThrough(g, stack, s.state, id, e.To);
    }
  }

  lemma {:induction false} EdgesMarkOnlyIf(g: WorkflowGraph, es: seq<Edge>, stack: seq<string>, s: Run)
    requires Good(g, stack, s) && stack != [] && stack[|stack| - 1] in g.Nodes
    requires forall e :: e in es ==> e in g.Edges && e.From == stack[|stack| - 1]
    ensures VisitEdges(g, es, stack, s).inLoop != s.inLoop ==>
              exists e :: e in es && EdgeCloses(g, stack, s.state, e.To)
    decreases g.Nodes.Keys - s.state.Keys, |es|
  {
    if es != [] {
      var target, t := es[0].To, VisitEdge(g, es, stack, s);
      assert es[0] in es;
      VisitEdgeKeeps(g, es, stack, s);
      if target !in s.state && target in g.Nodes {
        VisitMarksOnlyIf(g, target, stack, s);
      }
      if t.inLoop != s.inLoop {
        assert EdgeCloses(g, stack, s.state, es[0].To);
      } else {
        EdgesMarkOnlyIf(g, es[1..], stack, t);
        if e :| e in es[1..] && EdgeCloses(g, stack, t.state, e.To) {
          ClosesEarlier(g, stack, s.state, t.state, e.To);
          assert e in es;
        }
      }
    }
  }

  /** A walk that starts done and meets no mark is done. */
  lemma {:induction false} UnmarkedWalkIsDone(g: WorkflowGraph, r: Run, w: seq<string>, k: nat)
    requires Covers(g, r.state, Accounted(g, r.inLoop)) && IsWalk(Links(g), w) && k < |w| && Done(r.state, w[0])
    requires forall v :: v in w ==> v !in r.inLoop
    ensures Done(r.state, w[k])
  {
    if k > 0 {
      UnmarkedWalkIsDone(g, r, w, k - 1);
      assert (w[k - 1], w[k - 1 + 1]) in Links(g);
      assert Handled(g, r.state, Accounted(g, r.inLoop), w[k - 1], w[k]);
    }
  }

  /** ...and a closing walk is never passed over. */
  lemma UnmarkedWalkDoesNotClose(g: WorkflowGraph, stack: seq<string>, r: Run, w: seq<string>)
    requires Sweeps(g, stack, r.state, Accounted(g, r.inLoop)) && IsWalk(Links(g), w) && Done(r.state, w[0])
    requires forall v :: v in w ==> v !in r.inLoop
    ensures !EndsInto(g, w, Elements(stack) + Elements(w))
  {
    var last := w[|w| - 1];
    UnmarkedWalkIsDone(g, r, w, |w| - 1);
    if x :| x in Elements(stack) + Elements(w) && (last, x) in Links(g) {
      assert Handled(g, r.state, Accounted(g, r.inLoop), last, x);
      if x in w {
        var j :| 0 <= j < |w| && w[j] == x;
        WalkSegment(Links(g), w, j, |w| - 1);
        UnmarkedCycle(g, r, w, j);
      }
    }
  }

  lemma UnmarkedCycle(g: WorkflowGraph, r: Run, w: seq<string>, j: nat)
    requires Covers(g, r.state, Accounted(g, r.inLoop)) && IsWalk(Links(g), w) && j < |w| && Done(r.state, w[0])
    requires forall v :: v in w ==> v !in r.inLoop
    ensures (w[|w| - 1], w[j]) !in Links(g)
  {
    if (w[|w| - 1], w[j]) in Links(g) {
      WalkSegment(Links(g), w, j, |w| - 1);
      var c := w[j..|w| - 1 + 1];
      assert IsCycle(Links(g), c);
      forall v | v in c ensures Done(r.state, v) && v !in r.inLoop {
        var k: nat :| k < |w| && w[k] == v;
        UnmarkedWalkIsDone(g, r, w, k);
      }
    }
  }

  /**
   * A visit marks its node exactly when a walk over unvisited nodes runs from it into itself or back onto the stack.
   */
  lemma VisitMarksIff(g: WorkflowGraph, id: string, stack: seq<string>, s: Run)
    requires Good(g, stack, s) && id in g.Nodes && id !in s.state
    requires stack != [] ==> (stack[|stack| - 1], id) in Links(g)
    ensures id in Visit(g, id, stack, s).inLoop <==> Closes(g, stack, s.state, id)
  {
    var r := Visit(g, id, stack, s);
    VisitKeeps(g, id, stack, s);
    VisitMarksOnlyIf(g, id, stack, s);
    if Closes(g, stack, s.state, id) && id !in r.inLoop {
      var w :| FreshWalk(g, s.state, w, id) && EndsInto(g, w, Elements(stack) + Elements(w));
      assert id in stack + [id];
      assert r.inLoop == s.inLoop;
      UnmarkedWalkDoesNotClose(g, stack, r, w);
    }
  }

  /** Marks go to nodes on the stack and to nodes visited from now on; a completed node keeps the mark it has. */
  lemma {:induction false} VisitMarksNoneDone(g: WorkflowGraph, id: string, stack: seq<string>, s: Run, v: string)
    requires id in g.Nodes && id !in s.state && v in s.state && v !in stack
    ensures v in Visit(g, id, stack, s).inLoop <==> v in s.inLoop
    decreases g.Nodes.Keys - s.state.Keys, 0
  {
    var entered := s.(state := s.state[id := InProgress]);
    assert id in g.Nodes.Keys - s.state.Keys && id !in g.Nodes.Keys - entered.state.Keys;
    EdgesMarkNoneDone(g, OutgoingEdges(g.Edges, id), stack + [id], entered, v);
  }

  lemma {:induction false} EdgesMarkNoneDone(g: WorkflowGraph, es: seq<Edge>, stack: seq<string>, s: Run, v: string)
    requires v in s.state && v !in stack
    ensures v in VisitEdges(g, es, stack, s).inLoop <==> v in s.inLoop
    decreases g.Nodes.Keys - s.state.Keys, |es|
  {
    if es != [] {
      var target := es[0].To;
      if target !in s.state && target in g.Nodes {
        VisitMarksNoneDone(g, target, stack, s, v);
      }
      EdgesMarkNoneDone(g, es[1..], stack, VisitEdge(g, es, stack, s), v);
    }
  }

  // ----- The visit of each node

  /** The stack and the run with which a node is visited. */
  datatype Call = Call(stack: seq<string>, before: Run)

  ghost function CallIn(g: WorkflowGraph, id: string, stack: seq<string>, s: Run, v: string): Option<Call>
    requires id in g.Nodes && id !in s.state
    decreases g.Nodes.Keys - s.state.Keys, 0
  {
    var entered := s.(state := s.state[id := InProgress]);
    assert id in g.Nodes.Keys - s.state.Keys && id !in g.Nodes.Keys - entered.state.Keys;
    if v == id then Some(Call(stack, s)) else CallInEdges(g, OutgoingEdges(g.Edges, id), stack + [id], entered, v)
  }

  ghost function CallInEdges(g: WorkflowGraph, es: seq<Edge>, stack: seq<string>, s: Run, v: string): Option<Call>
    decreases g.Nodes.Keys - s.state.Keys, |es|
  {
    if es == [] then None
    else
      var here := if es[0].To !in s.state && es[0].To in g.Nodes then CallIn(g, es[0].To, stack, s, v) else None;
      if here.Some? then here else CallInEdges(g, es[1..], stack, VisitEdge(g, es, stack, s), v)
  }

  ghost function CallInRoots(g: WorkflowGraph, ids: seq<string>, s: Run, v: string): Option<Call>
    requires forall x :: x in ids ==> x in g.Nodes
  {
    if ids == [] then None
    else
      var here := if ids[0] in s.state then None else CallIn(g, ids[0], [], s, v);
      if here.Some? then here else CallInRoots(g, ids[1..], if ids[0] in s.state then s else Visit(g, ids[0], [], s), v)
  }

  /** The one visit of v during the whole search. */
  ghost function CallOf(g: WorkflowGraph, order: seq<string>, v: string): Option<Call>
    requires ListsAll(g, order)
  {
    var here := if g.EntryNodeID in g.Nodes then CallIn(g, g.EntryNodeID, [], EMPTY_RUN, v) else None;
    if here.Some? then here else CallInRoots(g, order, FromEntry(g), v)
  }

  /** The call is a proper one, and whether v is marked in r is decided by it. */
  ghost predicate Decides(g: WorkflowGraph, c: Call, r: Run, v: string) {
    && Good(g, c.stack, c.before) && v in g.Nodes && v !in c.before.state
    && (c.stack != [] ==> (c.stack[|c.stack| - 1], v) in Links(g))
    && v in r.state && (v in r.inLoop <==> Closes(g, c.stack, c.before.state, v))
  }

  lemma {:induction false} VisitDecides(g: WorkflowGraph, id: string, stack: seq<string>, s: Run, v: string)
    requires Good(g, stack, s) && id in g.Nodes && id !in s.state && v !in s.state
    requires stack != [] ==> (stack[|stack| - 1], id) in Links(g)
    ensures var r := Visit(g, id, stack, s);
            && (v in r.state <==> CallIn(g, id, stack, s, v).Some?)
            && (v in r.state ==> Decides(g, CallIn(g, id, stack, s, v).value, r, v))
    decreases g.Nodes.Keys - s.state.Keys, 0
  {
    var entered := s.(state := s.state[id := InProgress]);
    assert id in g.Nodes.Keys - s.state.Keys && id !in g.Nodes.Keys - entered.state.Keys;
    if v == id {
      VisitMarksIff(g, id, stack, s);
    } else {
      EnterKeeps(g, id, stack, s.state, Accounted(g, s.inLoop));
      OutgoingEdgesAre(g.Edges, id);
      EdgesDecide(g, OutgoingEdges(g.Edges, id), stack + [id], entered, v);
    }
  }

  lemma {:induction false} EdgesDecide(g: WorkflowGraph, es: seq<Edge>, stack: seq<string>, s: Run, v: string)
    requires Good(g, stack, s) && stack != [] && stack[|stack| - 1] in g.Nodes && v !in s.state
    requires forall e :: e in es ==> e in g.Edges && e.From == stack[|stack| - 1]
    ensures var r := VisitEdges(g, es, stack, s);
            && (v in r.state <==> CallInEdges(g, es, stack, s, v).Some?)
            && (v in r.state ==> Decides(g, CallInEdges(g, es, stack, s, v).value, r, v))
    decreases g.Nodes.Keys - s.state.Keys, |es|
  {
    if es != [] {
      var target, t := es[0].To, VisitEdge(g, es, stack, s);
      assert es[0] in es;
      VisitEdgeKeeps(g, es, stack, s);
      if target !in s.state && target in g.Nodes {
        VisitDecides(g, target, stack, s, v);
      }
      if v in t.state {
        EdgesMarkNoneDone(g, es[1..], stack, t, v);
      } else {
        EdgesDecide(g, es[1..], stack, t, v);
      }
    }
  }

  lemma {:induction false} RootsDecide(g: WorkflowGraph, ids: seq<string>, s: Run, v: string)
    requires Good(g, [], s) && v !in s.state && forall x :: x in ids ==> x in g.Nodes
    ensures var r := VisitRoots(g, ids, s);
            && (v in r.state <==> CallInRoots(g, ids, s, v).Some?)
            && (v in r.state ==> Decides(g, CallInRoots(g, ids, s, v).value, r, v))
  {
    if ids != [] {
      assert ids[0] in ids;
      var t := if ids[0] in s.state then s else Visit(g, ids[0], [], s);
      if ids[0] !in s.state {
        VisitKeeps(g, ids[0], [], s);
        VisitDecides(g, ids[0], [], s, v);
      }
      if v in t.state {
        RootsMarkNoneDone(g, ids[1..], t, v);
      } else {
        RootsDecide(g, ids[1..], t, v);
      }
    }
  }

  lemma {:induction false} RootsMarkNoneDone(g: WorkflowGraph, ids: seq<string>, s: Run, v: string)
    requires v in s.state && forall x :: x in ids ==> x in g.Nodes
    ensures var r := VisitRoots(g, ids, s); v in r.state && (v in r.inLoop <==> v in s.inLoop)
  {
    if ids != [] {
      assert ids[0] in ids;
      if ids[0] !in s.state {
        VisitMarksNoneDone(g, ids[0], [], s, v);
      }
      RootsMarkNoneDone(g, ids[1..], if ids[0] in s.state then s else Visit(g, ids[0], [], s), v);
    }
  }

  // ----- Main results

  /** Each marked node can reach a cycle, and each cycle has a marked node, whatever the iteration order. */
  lemma MarksHitEveryCycle(g: WorkflowGraph, order: seq<string>)
    requires ListsAll(g, order)
    ensures forall v :: v in Marks(g, order) ==> ReachesCycle(g, v)
    ensures forall c :: IsCycle(Links(g), c) ==> exists v :: v in c && v in Marks(g, order)
  {
    FromEntryIsGood(g);
    VisitRootsKeeps(g, order, FromEntry(g));
    var r := VisitRoots(g, order, FromEntry(g));
    forall c | IsCycle(Links(g), c) ensures exists v :: v in c && v in r.inLoop {
      CyclesAreDone(g, r.state, c);
      assert Hit(Accounted(g, r.inLoop), c);
    }
  }

  /** Each node is visited once, and that visit decides its mark for good. */
  lemma MarkedIff(g: WorkflowGraph, order: seq<string>, v: string)
    requires ListsAll(g, order) && v in g.Nodes
    ensures CallOf(g, order, v).Some?
    ensures var c := CallOf(g, order, v).value;
            && Decides(g, c, VisitRoots(g, order, FromEntry(g)), v)
            && (v in Marks(g, order) <==> Closes(g, c.stack, c.before.state, v))
  {
    FromEntryIsGood(g);
    VisitRootsKeeps(g, order, FromEntry(g));
    assert v in order;
    if g.EntryNodeID in g.Nodes {
      VisitDecides(g, g.EntryNodeID, [], EMPTY_RUN, v);
    }
    if v in FromEntry(g).state {
      RootsMarkNoneDone(g, order, FromEntry(g), v);
    } else {
      RootsDecide(g, order, FromEntry(g), v);
    }
  }

  /** Some walk over unvisited nodes runs from v into itself. */
  ghost predicate RunsIntoItself(g: WorkflowGraph, state: VisitStates, v: string) {
    exists w :: FreshWalk(g, state, w, v) && EndsInto(g, w, Elements(w))
  }

  /**
   * A node at which a search starts is marked exactly when a walk
   * over nodes unvisited by then runs from it into itself.
   */
  lemma RootMarkedIff(g: WorkflowGraph, order: seq<string>, v: string)
    requires ListsAll(g, order) && v in g.Nodes && CallOf(g, order, v).Some? && CallOf(g, order, v).value.stack == []
    ensures v in Marks(g, order) <==> RunsIntoItself(g, CallOf(g, order, v).value.before.state, v)
  {
    MarkedIff(g, order, v);
    assert forall w: seq<string> :: Elements([]) + Elements(w) == Elements(w);
  }

  /** A walk over unvisited nodes back onto the stack puts its start on a simple cycle. */
  lemma BackOntoStackIsACycle(g: WorkflowGraph, c: Call, r: Run, v: string, w: seq<string>)
    requires Decides(g, c, r, v) && FreshWalk(g, c.before.state, w, v) && EndsInto(g, w, Elements(c.stack))
    ensures OnSimpleCycle(Links(g), v)
  {
    var x :| x in Elements(c.stack) && (w[|w| - 1], x) in Links(g);
    forall a | a in c.stack ensures a !in w {
      assert a in c.before.state;
    }
    ClosedThrough(Links(g), c.stack, w, x);
  }

  /**
   * For a single node the mark says what it is documented to say exactly when: a node on a cycle has a closing walk at
   * its visit, and a node on none has no walk over unvisited nodes that runs into itself.
   */
  lemma MarkAgreesIff(g: WorkflowGraph, order: seq<string>, v: string)
    requires ListsAll(g, order) && v in g.Nodes
    ensures CallOf(g, order, v).Some?
    ensures var c := CallOf(g, order, v).value;
            (v in Marks(g, order) <==> OnSimpleCycle(Links(g), v)) <==>
            if OnSimpleCycle(Links(g), v) then Closes(g, c.stack, c.before.state, v)
            else !RunsIntoItself(g, c.before.state, v)
  {
    MarkedIff(g, order, v);
    var c := CallOf(g, order, v).value;
    if !OnSimpleCycle(Links(g), v) {
      if w :| FreshWalk(g, c.before.state, w, v) && EndsInto(g, w, Elements(w)) {
        assert EndsInto(g, w, Elements(c.stack) + Elements(w));
      }
      if w :| FreshWalk(g, c.before.state, w, v) && EndsInto(g, w, Elements(c.stack) + Elements(w)) {
        if EndsInto(g, w, Elements(c.stack)) {
          BackOntoStackIsACycle(g, c, VisitRoots(g, order, FromEntry(g)), v, w);
        }
      }
    }
  }

  lemma NoMarksIffAcyclic(g: WorkflowGraph, order: seq<string>)
    requires ListsAll(g, order)
    ensures Marks(g, order) == {} <==> Acyclic(Links(g))
  {
    MarksHitEveryCycle(g, order);
    if Marks(g, order) != {} {
      var v :| v in Marks(g, order);
      var w :| Reaches(Links(g), v, w) && OnSimpleCycle(Links(g), w);
    }
  }

  /** Because the whole stack is marked, the entry node is marked exactly when it can reach a cycle. */
  lemma EntryMarkedIffItReachesACycle(g: WorkflowGraph, order: seq<string>)
    requires ListsAll(g, order) && g.EntryNodeID in g.Nodes
    ensures g.EntryNodeID in Marks(g, order) <==> ReachesCycle(g, g.EntryNodeID)
  {
    MarksHitEveryCycle(g, order);
    FromEntryIsGood(g);
    VisitRootsKeeps(g, order, FromEntry(g));
    if ReachesCycle(g, g.EntryNodeID) {
      CycleIsFoundFromEntry(g);
      assert g.EntryNodeID in Elements([g.EntryNodeID]);
    }
  }

  /** The first search completes everything the entry node reaches, so it meets any cycle there. */
  lemma CycleIsFoundFromEntry(g: WorkflowGraph)
    requires g.EntryNodeID in g.Nodes && ReachesCycle(g, g.EntryNodeID)
    ensures FromEntry(g).inLoop != {}
  {
    var entry, s := g.EntryNodeID, FromEntry(g);
    FromEntryIsGood(g);
    var w :| Reaches(Links(g), entry, w) && OnSimpleCycle(Links(g), w);
    var c :| IsCycle(Links(g), c) && Distinct(c) && w in c;
    var done := set v | v in g.Nodes && Done(s.state, v);
    forall p | p in Links(g) && p.0 in done ensures p.1 in done {
      assert Handled(g, s.state, Accounted(g, s.inLoop), p.0, p.1);
    }
    forall v | v in c ensures Done(s.state, v) {
      CycleReaches(Links(g), c, w, v);
      ReachesTrans(Links(g), entry, w, v);
      ReachesStaysIn(Links(g), done, entry, v);
    }
  }

  // ----- Marks and cycle membership differ both ways

  /** A node that leads into a self-loop. */
  function Tail(): WorkflowGraph {
    WorkflowGraph(map["a" := PlainNode("a"), "b" := PlainNode("b")],
                  [Edge("a", "b", ""), Edge("b", "b", "")], "a", false)
  }

  lemma TailLinks()
    ensures Links(Tail()) == {("a", "b"), ("b", "b")}
  {
    var g := Tail();
    assert g.Edges[0] in g.Edges && g.Edges[1] in g.Edges;
  }

  /** "a" is marked although it lies on no cycle. */
  lemma MarkedOffCycle(order: seq<string>)
    requires ListsAll(Tail(), order)
    ensures "a" in Marks(Tail(), order) && !OnSimpleCycle(Links(Tail()), "a")
  {
    var g := Tail();
    TailLinks();
    var r := Links(g);
    assert IsCycle(r, ["b"]) && Distinct(["b"]) && "b" in ["b"];
    ReachesEdge(r, "a", "b");
    assert ReachesCycle(g, "a");
    EntryMarkedIffItReachesACycle(g, order);
    if OnSimpleCycle(r, "a") {
      var c :| IsCycle(r, c) && Distinct(c) && "a" in c;
      var p := CyclePredecessor(r, c, "a");
    }
  }

  /** c's only cycle a, c, b closes through b, which is completed before c is seen. */
  function Shortcut(): WorkflowGraph {
    WorkflowGraph(
      map["a" := PlainNode("a"), "b" := PlainNode("b"), "c" := PlainNode("c")],
      [Edge("a", "b", ""), Edge("b", "a", ""), Edge("a", "c", ""), Edge("c", "b", "")], "a", false)
  }

  lemma {:induction false} AllVisited(g: WorkflowGraph, ids: seq<string>, s: Run)
    requires forall v :: v in ids ==> v in g.Nodes && v in s.state
    ensures VisitRoots(g, ids, s) == s
  {
    if ids != [] {
      assert ids[0] in ids;
      AllVisited(g, ids[1..], s);
    }
  }

  ghost predicate ShortcutShape(g: WorkflowGraph) {
    && g.EntryNodeID == "a" && g.Nodes.Keys == {"a", "b", "c"}
    && OutgoingEdges(g.Edges, "a") == [Edge("a", "b", ""), Edge("a", "c", "")]
    && OutgoingEdges(g.Edges, "b") == [Edge("b", "a", "")]
    && OutgoingEdges(g.Edges, "c") == [Edge("c", "b", "")]
    && Links(g) == {("a", "b"), ("b", "a"), ("a", "c"), ("c", "b")}
  }

  lemma OutgoingOfFour(a: Edge, b: Edge, c: Edge, d: Edge, id: string)
    ensures OutgoingEdges([a, b, c, d], id)
         == (if a.From == id then [a] else []) + (if b.From == id then [b] else [])
          + (if c.From == id then [c] else []) + (if d.From == id then [d] else [])
  {
    assert [a, b, c, d][1..] == [b, c, d] && [b, c, d][1..] == [c, d] && [c, d][1..] == [d];
    var last := if d.From == id then [d] else [];
    assert OutgoingEdges([d], id) == last;
    assert OutgoingEdges([c, d], id) == (if c.From == id then [c] else []) + last;
    assert OutgoingEdges([b, c, d], id) ==
           (if b.From == id then [b] else []) + ((if c.From == id then [c] else []) + last);
  }

  lemma LinksOfShortcut(g: WorkflowGraph)
    requires g.Nodes.Keys == {"a", "b", "c"}
    requires g.Edges == [Edge("a", "b", ""), Edge("b", "a", ""), Edge("a", "c", ""), Edge("c", "b", "")]
    ensures Links(g) == {("a", "b"), ("b", "a"), ("a", "c"), ("c", "b")}
  {
    assert g.Edges[0] in g.Edges && g.Edges[1] in g.Edges && g.Edges[2] in g.Edges && g.Edges[3] in g.Edges;
  }

  lemma ShortcutHasShape()
    ensures ShortcutShape(Shortcut())
  {
    var ab, ba, ac, cb := Edge("a", "b", ""), Edge("b", "a", ""), Edge("a", "c", ""), Edge("c", "b", "");
    OutgoingOfFour(ab, ba, ac, cb, "a");
    OutgoingOfFour(ab, ba, ac, cb, "b");
    OutgoingOfFour(ab, ba, ac, cb, "c");
    LinksOfShortcut(Shortcut());
  }

  lemma ShortcutFromB(g: WorkflowGraph)
    requires ShortcutShape(g)
    ensures Visit(g, "b", ["a"], Run(map["a" := InProgress], {})) ==
              Run(map["a" := InProgress, "b" := Completed], {"a", "b"})
  {
    var s := Run(map["a" := InProgress, "b" := InProgress], {});
    var es := OutgoingEdges(g.Edges, "b");
    assert Elements(["a", "b"]) == {"a", "b"};
    assert VisitEdges(g, es, ["a", "b"], s) == VisitEdges(g, es[1..], ["a", "b"], s.(inLoop := {"a", "b"}));
    assert ["a"] + ["b"] == ["a", "b"];
  }

  lemma ShortcutFromC(g: WorkflowGraph)
    requires ShortcutShape(g)
    ensures Visit(g, "c", ["a"], Run(map["a" := InProgress, "b" := Completed], {"a", "b"}))
         == Run(map["a" := InProgress, "b" := Completed, "c" := Completed], {"a", "b"})
  {
    var s := Run(map["a" := InProgress, "b" := Completed, "c" := InProgress], {"a", "b"});
    var es := OutgoingEdges(g.Edges, "c");
    assert VisitEdges(g, es, ["a"] + ["c"], s) == VisitEdges(g, es[1..], ["a"] + ["c"], s) == s;
  }

  lemma ShortcutRun(g: WorkflowGraph)
    requires ShortcutShape(g)
    ensures FromEntry(g) == Run(map["a" := Completed, "b" := Completed, "c" := Completed], {"a", "b"})
  {
    ShortcutFromB(g);
    ShortcutFromC(g);
    var es := OutgoingEdges(g.Edges, "a");
    var s, t := Run(map["a" := InProgress], {}), Run(map["a" := InProgress, "b" := Completed], {"a", "b"});
    var u := Run(map["a" := InProgress, "b" := Completed, "c" := Completed], {"a", "b"});
    assert [] + ["a"] == ["a"];
    assert VisitEdges(g, es, ["a"], s) == VisitEdges(g, es[1..], ["a"], t);
    assert VisitEdges(g, es[1..], ["a"], t) == VisitEdges(g, es[1..][1..], ["a"], u) == u;
  }

  /** "c" lies on a cycle and is not marked. */
  lemma UnmarkedOnCycle(order: seq<string>)
    requires ListsAll(Shortcut(), order)
    ensures "c" !in Marks(Shortcut(), order) && OnSimpleCycle(Links(Shortcut()), "c")
  {
    ShortcutHasShape();
    ShortcutCycle(Shortcut());
    ShortcutRun(Shortcut());
    AllVisited(Shortcut(), order, FromEntry(Shortcut()));
  }

  lemma ShortcutCycle(g: WorkflowGraph)
    requires ShortcutShape(g)
    ensures OnSimpleCycle(Links(g), "c")
  {
    var c := ["a", "c", "b"];
    assert IsCycle(Links(g), c) && Distinct(c) && c[1] == "c";
  }
}
