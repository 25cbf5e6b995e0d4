/**
 * On which path a depth-first search first comes to a node. At every branch of it, nothing that was tried earlier leads
 * to the node without crossing the path, and no earlier root leads to it at all; there is only one such path.
 */
module SearchOrder {
  import opened Domain
  import opened Paths
  import opened DepthFirst

  /** `before(u, x, y)`: from u, x is tried before y. */
  type Branches = (string, string, string) -> bool

  /** `earlier(u, r)`: u is tried as a root before r. */
  type Roots = (string, string) -> bool

  // ----- The path of a node

  /** Some walk leads from x to y without touching the stack. */
  ghost predicate Around(g: WorkflowGraph, stack: seq<string>, x: string, y: string) {
    exists w :: WalkFromTo(Links(g), w, x, y) && forall v :: v in w ==> v !in stack
  }

  ghost predicate FirstBranches(g: WorkflowGraph, before: Branches, w: seq<string>) {
    forall j, x :: 0 <= j < |w| - 1 && (w[j], x) in Links(g) && before(w[j], x, w[j + 1]) ==>
      !Around(g, w[..j + 1], x, w[|w| - 1])
  }

  /** The path on which the search comes to its last node. */
  ghost predicate SearchPath(g: WorkflowGraph, before: Branches, earlier: Roots, w: seq<string>) {
    && IsWalk(Links(g), w) && Distinct(w) && (forall v :: v in w ==> v in g.Nodes)
    && FirstBranches(g, before, w)
    && forall u :: earlier(u, w[0]) ==> !Reaches(Links(g), u, w[|w| - 1])
  }

  ghost predicate TotalBranches(g: WorkflowGraph, before: Branches) {
    forall u, x, y :: (u, x) in Links(g) && (u, y) in Links(g) && x != y ==> before(u, x, y) || before(u, y, x)
  }

  ghost predicate TotalRoots(g: WorkflowGraph, earlier: Roots) {
    forall r, q :: r in g.Nodes && q in g.Nodes && r != q ==> earlier(r, q) || earlier(q, r)
  }

  /** The rest of the other path is a way round. */
  lemma BranchIsAround(g: WorkflowGraph, w: seq<string>, j: nat)
    requires IsWalk(Links(g), w) && Distinct(w) && j + 1 < |w|
    ensures Around(g, w[..j + 1], w[j + 1], w[|w| - 1])
  {
    var rest := w[j + 1..];
    WalkSegment(Links(g), w, j + 1, |w| - 1);
    assert w[j + 1..|w| - 1 + 1] == rest;
    assert WalkFromTo(Links(g), rest, w[j + 1], w[|w| - 1]);
    forall v | v in rest ensures v !in w[..j + 1] {
      var k :| 0 <= k < |rest| && rest[k] == v;
      assert w[j + 1 + k] == v;
    }
  }

  lemma SameRoot(g: WorkflowGraph, before: Branches, earlier: Roots, w: seq<string>, x: seq<string>)
    requires SearchPath(g, before, earlier, w) && SearchPath(g, before, earlier, x) && TotalRoots(g, earlier)
    requires w[|w| - 1] == x[|x| - 1]
    ensures w[0] == x[0]
  {
    WalkSegment(Links(g), w, 0, |w| - 1);
    WalkSegment(Links(g), x, 0, |x| - 1);
    assert w[0] in w && x[0] in x;
  }

  lemma SameBranch(g: WorkflowGraph, before: Branches, earlier: Roots, w: seq<string>, x: seq<string>, j: nat)
    requires SearchPath(g, before, earlier, w) && SearchPath(g, before, earlier, x) && TotalBranches(g, before)
    requires w[|w| - 1] == x[|x| - 1] && j + 1 < |w| && j + 1 < |x| && w[..j + 1] == x[..j + 1]
    ensures w[j + 1] == x[j + 1]
  {
    assert w[..j + 1][j] == w[j] && x[..j + 1][j] == x[j];
    assert (w[j], w[j + 1]) in Links(g) && (x[j], x[j + 1]) in Links(g);
    BranchIsAround(g, w, j);
    BranchIsAround(g, x, j);
  }

  lemma {:induction false} SamePrefix(g: WorkflowGraph, before: Branches, earlier: Roots, w: seq<string>,
                                      x: seq<string>, j: nat)
    requires SearchPath(g, before, earlier, w) && SearchPath(g, before, earlier, x)
    requires TotalBranches(g, before) && TotalRoots(g, earlier) && w[|w| - 1] == x[|x| - 1]
    requires j < |w| && j < |x|
    ensures w[..j + 1] == x[..j + 1]
  {
    if j == 0 {
      SameRoot(g, before, earlier, w, x);
    } else {
      SamePrefix(g, before, earlier, w, x, j - 1);
      SameBranch(g, before, earlier, w, x, j - 1);
      assert w[..j + 1] == w[..j] + [w[j]] && x[..j + 1] == x[..j] + [x[j]];
    }
  }

  /** There is only one search path to a node. */
  lemma SearchPathIsUnique(g: WorkflowGraph, before: Branches, earlier: Roots, w: seq<string>, x: seq<string>)
    requires SearchPath(g, before, earlier, w) && SearchPath(g, before, earlier, x)
    requires TotalBranches(g, before) && TotalRoots(g, earlier) && w[|w| - 1] == x[|x| - 1]
    ensures w == x
  {
    var n := if |w| < |x| then |w| else |x|;
    SamePrefix(g, before, earlier, w, x, n - 1);
    assert w[..n][n - 1] == w[n - 1] && x[..n][n - 1] == x[n - 1];
    assert w[..|w|] == w && x[..|x|] == x;
  }

  // ----- Why the search goes along these paths

  /** All that x leads to without touching the stack is completed. */
  ghost predicate Shut(g: WorkflowGraph, stack: seq<string>, state: VisitStates, x: string) {
    forall y :: Around(g, stack, x, y) ==> Done(state, y)
  }

  ghost predicate RootsShut(g: WorkflowGraph, earlier: Roots, root: string, state: VisitStates) {
    forall u, y :: earlier(u, root) && Reaches(Links(g), u, y) ==> Done(state, y)
  }

  /** At every branch of the path, what was tried earlier is shut; so is what earlier roots lead to. */
  ghost predicate Traced(g: WorkflowGraph, before: Branches, earlier: Roots, path: seq<string>, state: VisitStates) {
    && path != [] && IsWalk(Links(g), path) && Distinct(path) && (forall v :: v in path ==> v in g.Nodes)
    && (forall j, x :: 0 <= j < |path| - 1 && (path[j], x) in Links(g) && before(path[j], x, path[j + 1]) ==>
          Shut(g, path[..j + 1], state, x))
    && RootsShut(g, earlier, path[0], state)
  }

  ghost predicate StaysDone(state: VisitStates, state': VisitStates) {
    forall v :: Done(state, v) ==> Done(state', v)
  }

  lemma TracedGrows(g: WorkflowGraph, before: Branches, earlier: Roots, path: seq<string>, state: VisitStates,
                    state': VisitStates)
    requires Traced(g, before, earlier, path, state) && StaysDone(state, state')
    ensures Traced(g, before, earlier, path, state')
  {
    forall j, x | 0 <= j < |path| - 1 && (path[j], x) in Links(g) && before(path[j], x, path[j + 1])
      ensures Shut(g, path[..j + 1], state', x)
    {
      assert Shut(g, path[..j + 1], state, x);
    }
  }

  /** A traced path to a node not completed is its search path. */
  lemma TracedIsSearchPath(g: WorkflowGraph, before: Branches, earlier: Roots, path: seq<string>, state: VisitStates)
    requires Traced(g, before, earlier, path, state) && !Done(state, path[|path| - 1])
    ensures SearchPath(g, before, earlier, path)
  {
    forall j, x | 0 <= j < |path| - 1 && (path[j], x) in Links(g) && before(path[j], x, path[j + 1])
      ensures !Around(g, path[..j + 1], x, path[|path| - 1])
    {
      assert Shut(g, path[..j + 1], state, x);
    }
  }

  lemma TracedStep(g: WorkflowGraph, before: Branches, earlier: Roots, path: seq<string>, state: VisitStates,
                   id: string)
    requires Traced(g, before, earlier, path, state) && id in g.Nodes && id !in path
    requires (path[|path| - 1], id) in Links(g)
    requires forall x :: (path[|path| - 1], x) in Links(g) && before(path[|path| - 1], x, id) ==>
               Shut(g, path, state, x)
    ensures Traced(g, before, earlier, path + [id], state)
  {
    var longer := path + [id];
    forall i | 0 <= i < |longer| - 1 ensures (longer[i], longer[i + 1]) in Links(g) {
      if i < |path| - 1 {
        assert (path[i], path[i + 1]) in Links(g);
      }
    }
    forall j, x | 0 <= j < |longer| - 1 && (longer[j], x) in Links(g) && before(longer[j], x, longer[j + 1])
      ensures Shut(g, longer[..j + 1], state, x)
    {
      assert longer[..j + 1] == path[..j + 1];
      if j < |path| - 1 {
        assert Shut(g, path[..j + 1], state, x);
      } else {
        assert path[..j + 1] == path;
      }
    }
  }

  lemma TracedRoot(g: WorkflowGraph, before: Branches, earlier: Roots, state: VisitStates, id: string)
    requires id in g.Nodes && RootsShut(g, earlier, id, state)
    ensures Traced(g, before, earlier, [id], state)
  {}

  /** Links out of completed nodes lead to completed nodes or onto the stack. */
  ghost predicate DoneLeadsOn(g: WorkflowGraph, path: seq<string>, state: VisitStates) {
    forall u, w :: (u, w) in Links(g) && Done(state, u) ==> Done(state, w) || w in path
  }

  lemma SweepsLeadsOn(g: WorkflowGraph, path: seq<string>, state: VisitStates, accounted: set<(string, string)>)
    requires Sweeps(g, path, state, accounted)
    ensures DoneLeadsOn(g, path, state)
  {
    forall u, w | (u, w) in Links(g) && Done(state, u) ensures Done(state, w) || w in path {
      assert Handled(g, state, accounted, u, w);
    }
  }

  lemma {:induction false} WalkStaysDone(g: WorkflowGraph, path: seq<string>, state: VisitStates, w: seq<string>,
                                         k: nat)
    requires DoneLeadsOn(g, path, state) && IsWalk(Links(g), w) && k < |w| && Done(state, w[0])
    requires forall v :: v in w ==> v !in path
    ensures Done(state, w[k])
  {
    if k > 0 {
      WalkStaysDone(g, path, state, w, k - 1);
      assert (w[k - 1], w[k - 1 + 1]) in Links(g) && w[k] in w;
    }
  }

  /** What is completed, or on the stack, is shut. */
  lemma DoneIsShut(g: WorkflowGraph, path: seq<string>, state: VisitStates, x: string)
    requires DoneLeadsOn(g, path, state) && (Done(state, x) || x in path)
    ensures Shut(g, path, state, x)
  {
    forall y | Around(g, path, x, y) ensures Done(state, y) {
      var w :| WalkFromTo(Links(g), w, x, y) && forall v :: v in w ==> v !in path;
      assert w[0] in w;
      WalkStaysDone(g, path, state, w, |w| - 1);
    }
  }

  /** With nothing in progress all that a completed root leads to is completed. */
  lemma DoneRootIsShut(g: WorkflowGraph, state: VisitStates, u: string)
    requires DoneLeadsOn(g, [], state) && Done(state, u)
    ensures forall y :: Reaches(Links(g), u, y) ==> Done(state, y)
  {
    forall y | Reaches(Links(g), u, y) ensures Done(state, y) {
      var w :| WalkFromTo(Links(g), w, u, y);
      WalkStaysDone(g, [], state, w, |w| - 1);
    }
  }
}
