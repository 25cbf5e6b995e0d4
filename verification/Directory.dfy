/** The report of a directory: suppression and policy applied to the findings of all files, and the sort after them. */
module Directory {
  import opened Domain
  import opened Ordering
  import opened Orchestrator
  import opened Selection
  import opened Ignore
  import opened Policy

  // ----- Directory analysis

  datatype GraphWithSource = GraphWithSource(Graph: Option<WorkflowGraph>, SourceFile: string)

  function WithSource<M>(fs: seq<Finding<M>>, file: string): seq<Finding<M>> {
    seq(|fs|, i requires 0 <= i < |fs| => fs[i].(SourceFile := file))
  }

  /** The single-graph analysis: what it finds for the input at a position, which may depend on that call's schedule. */
  type Analysis<M> = (nat, WorkflowGraph) -> seq<Finding<M>>

  /** Findings of each file in turn, stamped with the file; inputs without a graph are skipped. */
  function PerFile<M>(inputs: seq<GraphWithSource>, analyze: Analysis<M>): seq<Finding<M>> {
    if inputs == [] then []
    else
      var n := |inputs| - 1;
      PerFile(inputs[..n], analyze)
      + if inputs[n].Graph.Some? then WithSource(analyze(n, inputs[n].Graph.value), inputs[n].SourceFile) else []
  }

  function GraphsBySource(inputs: seq<GraphWithSource>): map<string, WorkflowGraph> {
    if inputs == [] then map[]
    else
      var last := inputs[|inputs| - 1];
      var before := GraphsBySource(inputs[..|inputs| - 1]);
      if last.Graph.Some? then before[last.SourceFile := last.Graph.value] else before
  }

  /** Position of a node in the graph of a file; the file itself when the node has none. */
  function Position(graphs: map<string, WorkflowGraph>, file: string, node: string): (string, int) {
    if file !in graphs || node !in graphs[file].Nodes then (file, 0)
    else
      var pos := graphs[file].Nodes[node].Pos;
      (if pos.File == "" then file else pos.File, pos.Line)
  }

  function ResolverFor(graphs: map<string, WorkflowGraph>): Resolver {
    (file, node) => Position(graphs, file, node)
  }

  /** What markers and nodes do not hide. */
  function Unhidden<M>(graphs: map<string, WorkflowGraph>, load: string -> IgnoreIndex, fs: seq<Finding<M>>):
    seq<Finding<M>>
  {
    KeptByMeta(graphs, Unignored(ResolverFor(graphs), load, fs))
  }

  /** What survives suppression and policy. */
  function Surviving<M>(graphs: map<string, WorkflowGraph>, load: string -> IgnoreIndex, policy: Option<RulePolicy>,
                        fs: seq<Finding<M>>): seq<Finding<M>> {
    JudgedIfSet(policy, Unhidden(graphs, load, fs))
  }

  /** The three passes share one array and equal the pure filters applied one after another. */
  method SuppressAndSort<M(!new)>(combined: seq<Finding<M>>, graphs: map<string, WorkflowGraph>,
                                  load: string -> IgnoreIndex, policy: Option<RulePolicy>)
    returns (report: seq<Finding<M>>)
    ensures report == Sorted(FindingLe<M>, Surviving(graphs, load, policy, combined)) && SortedBy(FindingLe<M>, report)
    ensures InReportOrder(report)
    ensures exists shown :: Shows(graphs, load, policy, combined, shown) && Arranges(shown, report)
  {
    var a := new Finding<M>[|combined|](i requires 0 <= i < |combined| => combined[i]);
    assert a[..|combined|] == combined;
    var n := FilterIgnoredFindings(a, |combined|, ResolverFor(graphs), load);
    n := FilterByNodeIgnoreMeta(a, n, graphs);
    n := ApplyPolicy(a, n, policy);
    FindingLeIsTotalPreorder<M>();
    SortedArranges(a[..n]);
    SurvivingShows(graphs, load, policy, combined);
    report := SortSliceStable(FindingLe<M>, a[..n]);
  }

  // ----- What is shown

  /** A marker names the rule or everything, for the whole file or for the line. */
  ghost predicate MarkerHides(index: IgnoreIndex, rule: string, line: int) {
    exists r :: r in {"*", rule}
      && (r in index.fileLevel || (line > 0 && line in index.perLine && r in index.perLine[line]))
  }

  /** The finding sits at its node's position; in its file, at no known line, when the node is not known. */
  ghost predicate SitsAt<M>(graphs: map<string, WorkflowGraph>, f: Finding<M>, file: string, line: int) {
    if f.SourceFile in graphs && f.NodeID in graphs[f.SourceFile].Nodes then
      var pos := graphs[f.SourceFile].Nodes[f.NodeID].Pos;
      (pos.File != "" ==> file == pos.File) && (pos.File == "" ==> file == f.SourceFile) && line == pos.Line
    else file == f.SourceFile && line == 0
  }

  /** A marker in the file where the finding sits hides it. */
  ghost predicate HiddenByMarker<M>(graphs: map<string, WorkflowGraph>, load: string -> IgnoreIndex, f: Finding<M>) {
    exists file, line :: SitsAt(graphs, f, file, line) && file != "" && MarkerHides(load(file), f.RuleName, line)
  }

  /** The node's own list, one name or several, names the rule or everything. */
  ghost predicate HiddenByNode<M>(graphs: map<string, WorkflowGraph>, f: Finding<M>) {
    && f.SourceFile in graphs && f.NodeID in graphs[f.SourceFile].Nodes
    && var cfg := graphs[f.SourceFile].Nodes[f.NodeID].Config;
       && "_shingan_ignore" in cfg
       && exists r :: r in {"*", f.RuleName} && Lists(cfg["_shingan_ignore"], r)
  }

  predicate Lists(raw: Any, name: string) {
    raw == Str(name) || (raw.Strs? && name in raw.strs) || (raw.Arr? && Str(name) in raw.items)
  }

  ghost predicate Visible<M>(graphs: map<string, WorkflowGraph>, load: string -> IgnoreIndex, f: Finding<M>) {
    !HiddenByMarker(graphs, load, f) && !HiddenByNode(graphs, f)
  }

  lemma MarkerHidesIff(index: IgnoreIndex, rule: string, line: int)
    ensures index.Suppressed(rule, line) <==> MarkerHides(index, rule, line)
  {
    assert "*" in {"*", rule} && rule in {"*", rule};
  }

  lemma VisibleIff<M>(graphs: map<string, WorkflowGraph>, load: string -> IgnoreIndex, f: Finding<M>)
    ensures KeepUnignored(ResolverFor(graphs), load, f) <==> !HiddenByMarker(graphs, load, f)
    ensures KeepByMeta(graphs, f) <==> !HiddenByNode(graphs, f)
  {
    var (file, line) := Position(graphs, f.SourceFile, f.NodeID);
    assert SitsAt(graphs, f, file, line);
    MarkerHidesIff(load(file), f.RuleName, line);
    assert forall x, l :: SitsAt(graphs, f, x, l) ==> x == file && l == line;
    if f.SourceFile in graphs && f.NodeID in graphs[f.SourceFile].Nodes {
      var cfg := graphs[f.SourceFile].Nodes[f.NodeID].Config;
      if "_shingan_ignore" in cfg {
        assert MetaSuppresses(cfg["_shingan_ignore"], f.RuleName) <==>
               Lists(cfg["_shingan_ignore"], "*") || Lists(cfg["_shingan_ignore"], f.RuleName);
        assert "*" in {"*", f.RuleName} && f.RuleName in {"*", f.RuleName};
      }
    }
  }

  /** x is what is shown of f: f itself without a policy, else what the policy makes of it. */
  ghost predicate ShownAs<M>(graphs: map<string, WorkflowGraph>, load: string -> IgnoreIndex,
                             policy: Option<RulePolicy>, f: Finding<M>, x: Finding<M>) {
    Visible(graphs, load, f) && if policy.None? then x == f else Becomes(policy.value, f, x)
  }

  ghost function Shown<M>(graphs: map<string, WorkflowGraph>, load: string -> IgnoreIndex, policy: Option<RulePolicy>):
    Finding<M> -> bool
  {
    (f: Finding<M>) => Visible(graphs, load, f) && (policy.Some? ==> !Dropped(policy.value, f))
  }

  /** `out` shows the findings that are shown, each as it is shown, in their order and as often as given. */
  ghost predicate Shows<M(!new)>(graphs: map<string, WorkflowGraph>, load: string -> IgnoreIndex,
                                 policy: Option<RulePolicy>, fs: seq<Finding<M>>, out: seq<Finding<M>>) {
    exists kept :: Selects(fs, Shown(graphs, load, policy), kept) && ShownInTurn(graphs, load, policy, kept, out)
  }

  ghost predicate ShownInTurn<M>(graphs: map<string, WorkflowGraph>, load: string -> IgnoreIndex,
                                 policy: Option<RulePolicy>, kept: seq<Finding<M>>, out: seq<Finding<M>>) {
    |kept| == |out| && forall i :: 0 <= i < |out| ==> ShownAs(graphs, load, policy, kept[i], out[i])
  }

  /** What is shown of f, if anything, is added at the end. */
  ghost predicate Extends<M(!new)>(graphs: map<string, WorkflowGraph>, load: string -> IgnoreIndex,
                                   policy: Option<RulePolicy>, f: Finding<M>, before: seq<Finding<M>>,
                                   after: seq<Finding<M>>) {
    if Shown(graphs, load, policy)(f) then exists x :: after == before + [x] && ShownAs(graphs, load, policy, f, x)
    else after == before
  }

  lemma UnhiddenStep<M>(graphs: map<string, WorkflowGraph>, load: string -> IgnoreIndex, fs: seq<Finding<M>>,
                        f: Finding<M>)
    ensures Visible(graphs, load, f) ==> Unhidden(graphs, load, fs + [f]) == Unhidden(graphs, load, fs) + [f]
    ensures !Visible(graphs, load, f) ==> Unhidden(graphs, load, fs + [f]) == Unhidden(graphs, load, fs)
  {
    var unignored := Unignored(ResolverFor(graphs), load, fs);
    VisibleIff(graphs, load, f);
    UnignoredConcat(ResolverFor(graphs), load, fs, f);
    if HiddenByMarker(graphs, load, f) {
      assert unignored + [] == unignored;
    } else {
      KeptByMetaConcat(graphs, unignored, f);
      assert KeptByMeta(graphs, unignored) + [] == KeptByMeta(graphs, unignored);
    }
  }

  lemma SurvivingStep<M(!new)>(graphs: map<string, WorkflowGraph>, load: string -> IgnoreIndex,
                               policy: Option<RulePolicy>, fs: seq<Finding<M>>, f: Finding<M>)
    ensures Extends(graphs, load, policy, f, Surviving(graphs, load, policy, fs),
                    Surviving(graphs, load, policy, fs + [f]))
  {
    var unhidden := Unhidden(graphs, load, fs);
    UnhiddenStep(graphs, load, fs, f);
    if Visible(graphs, load, f) && policy.Some? {
      JudgeStep(graphs, load, policy.value, unhidden, f);
    } else if Visible(graphs, load, f) {
      assert ShownAs(graphs, load, policy, f, f);
    }
  }

  lemma JudgeStep<M(!new)>(graphs: map<string, WorkflowGraph>, load: string -> IgnoreIndex, policy: RulePolicy,
                           fs: seq<Finding<M>>, f: Finding<M>)
    requires Visible(graphs, load, f)
    ensures Extends(graphs, load, Some(policy), f, Judged(policy, fs), Judged(policy, fs + [f]))
  {
    JudgedConcat(policy, fs, f);
    var j := Judge(policy, f);
    JudgeIff(policy, f, if j.Some? then j.value else f);
    if j.Some? {
      assert ShownAs(graphs, load, Some(policy), f, j.value);
    } else {
      assert Judged(policy, fs) + [] == Judged(policy, fs);
    }
  }

  lemma ShowsNext<M(!new)>(graphs: map<string, WorkflowGraph>, load: string -> IgnoreIndex, policy: Option<RulePolicy>,
                           fs: seq<Finding<M>>, n: nat, before: seq<Finding<M>>, after: seq<Finding<M>>)
    requires n < |fs| && Shows(graphs, load, policy, fs[..n], before)
    requires Extends(graphs, load, policy, fs[n], before, after)
    ensures Shows(graphs, load, policy, fs[..n + 1], after)
  {
    var keep := Shown(graphs, load, policy);
    var kept :| Selects(fs[..n], keep, kept) && ShownInTurn(graphs, load, policy, kept, before);
    if keep(fs[n]) {
      var x :| after == before + [x] && ShownAs(graphs, load, policy, fs[n], x);
      ShownOneMore(graphs, load, policy, kept, before, fs[n], x);
      SelectsNext(fs, n, keep, kept, kept + [fs[n]]);
    } else {
      SelectsNext(fs, n, keep, kept, kept);
    }
  }

  lemma ShownOneMore<M>(graphs: map<string, WorkflowGraph>, load: string -> IgnoreIndex, policy: Option<RulePolicy>,
                        kept: seq<Finding<M>>, out: seq<Finding<M>>, f: Finding<M>, x: Finding<M>)
    requires ShownInTurn(graphs, load, policy, kept, out) && ShownAs(graphs, load, policy, f, x)
    ensures ShownInTurn(graphs, load, policy, kept + [f], out + [x])
  {}

  lemma ShowsOneMore<M(!new)>(graphs: map<string, WorkflowGraph>, load: string -> IgnoreIndex,
                              policy: Option<RulePolicy>, fs: seq<Finding<M>>, n: nat)
    requires n < |fs| && Shows(graphs, load, policy, fs[..n], Surviving(graphs, load, policy, fs[..n]))
    ensures Shows(graphs, load, policy, fs[..n + 1], Surviving(graphs, load, policy, fs[..n + 1]))
  {
    SurvivingAt(graphs, load, policy, fs, n);
    ShowsNext(graphs, load, policy, fs, n, Surviving(graphs, load, policy, fs[..n]),
              Surviving(graphs, load, policy, fs[..n + 1]));
  }

  lemma SurvivingAt<M(!new)>(graphs: map<string, WorkflowGraph>, load: string -> IgnoreIndex,
                             policy: Option<RulePolicy>, fs: seq<Finding<M>>, n: nat)
    requires n < |fs|
    ensures Extends(graphs, load, policy, fs[n], Surviving(graphs, load, policy, fs[..n]),
                    Surviving(graphs, load, policy, fs[..n + 1]))
  {
    SurvivingStep(graphs, load, policy, fs[..n], fs[n]);
    PrefixSnoc(fs, n);
  }

  lemma NothingShows<M(!new)>(graphs: map<string, WorkflowGraph>, load: string -> IgnoreIndex,
                              policy: Option<RulePolicy>)
    ensures Shows<M>(graphs, load, policy, [], Surviving(graphs, load, policy, []))
  {
    SelectsNothing(Shown<M>(graphs, load, policy));
    assert ShownInTurn<M>(graphs, load, policy, [], []);
  }

  /** The passes one after another show what is to be shown. */
  lemma SurvivingShows<M(!new)>(graphs: map<string, WorkflowGraph>, load: string -> IgnoreIndex,
                                policy: Option<RulePolicy>, fs: seq<Finding<M>>)
    ensures Shows(graphs, load, policy, fs, Surviving(graphs, load, policy, fs))
  {
    NothingShows<M>(graphs, load, policy);
    assert fs[..0] == [];
    for n := 0 to |fs|
      invariant Shows(graphs, load, policy, fs[..n], Surviving(graphs, load, policy, fs[..n]))
    {
      ShowsOneMore(graphs, load, policy, fs, n);
    }
    assert fs[..|fs|] == fs;
  }

  lemma ShownMembers<M(!new)>(graphs: map<string, WorkflowGraph>, load: string -> IgnoreIndex,
                              policy: Option<RulePolicy>, fs: seq<Finding<M>>, out: seq<Finding<M>>, x: Finding<M>)
    requires Shows(graphs, load, policy, fs, out)
    ensures x in out <==> exists f :: f in fs && ShownAs(graphs, load, policy, f, x)
  {
    var kept :| Selects(fs, Shown(graphs, load, policy), kept) && ShownInTurn(graphs, load, policy, kept, out);
    SelectsMembers(fs, Shown(graphs, load, policy), kept);
    if x in out {
      var i :| 0 <= i < |out| && out[i] == x;
      assert kept[i] in kept && ShownAs(graphs, load, policy, kept[i], x);
    }
    if f :| f in fs && ShownAs(graphs, load, policy, f, x) {
      assert Shown(graphs, load, policy)(f) && f in kept;
      var i :| 0 <= i < |kept| && kept[i] == f;
      ShownOnce(graphs, load, policy, f, x, out[i]);
    }
  }

  /** A finding is in the result exactly when one of the original ones is shown as it. */
  lemma SurvivorsAreJudged<M(!new)>(graphs: map<string, WorkflowGraph>, load: string -> IgnoreIndex,
                                    policy: Option<RulePolicy>, fs: seq<Finding<M>>, x: Finding<M>)
    ensures x in Surviving(graphs, load, policy, fs) <==> exists f :: f in fs && ShownAs(graphs, load, policy, f, x)
  {
    SurvivingShows(graphs, load, policy, fs);
    ShownMembers(graphs, load, policy, fs, Surviving(graphs, load, policy, fs), x);
  }

  lemma ShownOnce<M>(graphs: map<string, WorkflowGraph>, load: string -> IgnoreIndex, policy: Option<RulePolicy>,
                     f: Finding<M>, x: Finding<M>, y: Finding<M>)
    requires ShownAs(graphs, load, policy, f, x) && ShownAs(graphs, load, policy, f, y)
    ensures x == y
  {
    if policy.Some? {
      JudgeIff(policy.value, f, x);
      JudgeIff(policy.value, f, y);
    }
  }

  // ----- The report of a directory

  /** h is what the analysis of the i-th input found, under the input's file. */
  ghost predicate FoundIn<M>(inputs: seq<GraphWithSource>, analyze: Analysis<M>, i: nat, h: Finding<M>) {
    i < |inputs| && inputs[i].Graph.Some?
    && exists f :: f in analyze(i, inputs[i].Graph.value) && h == f.(SourceFile := inputs[i].SourceFile)
  }

  lemma {:induction false} PerFileHolds<M(!new)>(inputs: seq<GraphWithSource>, analyze: Analysis<M>, h: Finding<M>)
    ensures h in PerFile(inputs, analyze) <==> exists i: nat :: FoundIn(inputs, analyze, i, h)
  {
    if inputs != [] {
      var n := |inputs| - 1;
      PerFileHolds(inputs[..n], analyze, h);
      forall i: nat | i < n ensures FoundIn(inputs[..n], analyze, i, h) <==> FoundIn(inputs, analyze, i, h) {
        assert inputs[..n][i] == inputs[i];
      }
      if inputs[n].Graph.Some? {
        WithSourceHolds(analyze(n, inputs[n].Graph.value), inputs[n].SourceFile, h);
      }
      assert forall i: nat :: FoundIn(inputs, analyze, i, h) ==> i < n || i == n;
      assert (exists i: nat :: FoundIn(inputs, analyze, i, h)) <==>
             (exists i: nat :: FoundIn(inputs[..n], analyze, i, h)) || FoundIn(inputs, analyze, n, h) by {
        if i: nat :| FoundIn(inputs[..n], analyze, i, h) {
          assert FoundIn(inputs, analyze, i, h);
        }
        if i: nat :| FoundIn(inputs, analyze, i, h) && i < n {
          assert FoundIn(inputs[..n], analyze, i, h);
        }
      }
    }
  }

  lemma WithSourceHolds<M(!new)>(fs: seq<Finding<M>>, file: string, h: Finding<M>)
    ensures h in WithSource(fs, file) <==> exists f :: f in fs && h == f.(SourceFile := file)
  {
    if f :| f in fs && h == f.(SourceFile := file) {
      var i :| 0 <= i < |fs| && fs[i] == f;
      assert WithSource(fs, file)[i] == h;
    }
  }

  /** The graph of a file is that of the last input that has one for it. */
  lemma {:induction false} GraphsAreLast(inputs: seq<GraphWithSource>, file: string, i: nat)
    requires i < |inputs| && inputs[i].Graph.Some? && inputs[i].SourceFile == file
    requires forall j :: i < j < |inputs| && inputs[j].Graph.Some? ==> inputs[j].SourceFile != file
    ensures file in GraphsBySource(inputs) && GraphsBySource(inputs)[file] == inputs[i].Graph.value
  {
    if i < |inputs| - 1 {
      GraphsAreLast(inputs[..|inputs| - 1], file, i);
    }
  }

  lemma {:induction false} GraphsAreGiven(inputs: seq<GraphWithSource>, file: string)
    requires forall i :: 0 <= i < |inputs| && inputs[i].Graph.Some? ==> inputs[i].SourceFile != file
    ensures file !in GraphsBySource(inputs)
  {
    if inputs != [] {
      GraphsAreGiven(inputs[..|inputs| - 1], file);
    }
  }

  /** The report of a directory: each file's findings in turn, filtered, and in the canonical order. */
  function DirectoryReport<M>(inputs: seq<GraphWithSource>, analyze: Analysis<M>, load: string -> IgnoreIndex,
                              policy: Option<RulePolicy>): seq<Finding<M>> {
    Sorted(FindingLe<M>, Surviving(GraphsBySource(inputs), load, policy, PerFile(inputs, analyze)))
  }

  method AnalyzeMulti<M(!new)>(inputs: seq<GraphWithSource>, analyze: Analysis<M>, load: string -> IgnoreIndex,
                               policy: Option<RulePolicy>)
    returns (report: seq<Finding<M>>)
    ensures SortedBy(FindingLe<M>, report)
    ensures report == DirectoryReport(inputs, analyze, load, policy)
    ensures InReportOrder(report)
    ensures forall x :: x in report <==> exists i: nat, h ::
              FoundIn(inputs, analyze, i, h) && ShownAs(GraphsBySource(inputs), load, policy, h, x)
    ensures exists shown ::
              Shows(GraphsBySource(inputs), load, policy, PerFile(inputs, analyze), shown) && Arranges(shown, report)
  {
    var graphs: map<string, WorkflowGraph> := map[];
    var combined: seq<Finding<M>> := [];
    for i := 0 to |inputs|
      invariant graphs == GraphsBySource(inputs[..i]) && combined == PerFile(inputs[..i], analyze)
    {
      assert inputs[..i + 1][..i] == inputs[..i];
      if inputs[i].Graph.Some? {
        graphs := graphs[inputs[i].SourceFile := inputs[i].Graph.value];
        combined := combined + WithSource(analyze(i, inputs[i].Graph.value), inputs[i].SourceFile);
      }
    }
    assert inputs[..|inputs|] == inputs;
    report := SuppressAndSort(combined, graphs, load, policy);
    forall x ensures x in report <==> exists i: nat, h ::
              FoundIn(inputs, analyze, i, h) && ShownAs(GraphsBySource(inputs), load, policy, h, x)
    {
      ReportShows(inputs, analyze, load, policy, x);
    }
  }

  lemma ReportShows<M(!new)>(inputs: seq<GraphWithSource>, analyze: Analysis<M>, load: string -> IgnoreIndex,
                             policy: Option<RulePolicy>, x: Finding<M>)
    ensures x in DirectoryReport(inputs, analyze, load, policy) <==> exists i: nat, h ::
              FoundIn(inputs, analyze, i, h) && ShownAs(GraphsBySource(inputs), load, policy, h, x)
  {
    var graphs, all := GraphsBySource(inputs), PerFile(inputs, analyze);
    SortedMultiset(FindingLe<M>, Surviving(graphs, load, policy, all));
    SameElements(DirectoryReport(inputs, analyze, load, policy), Surviving(graphs, load, policy, all), x);
    SurvivorsAreJudged(graphs, load, policy, all, x);
    forall h ensures h in all <==> exists i: nat :: FoundIn(inputs, analyze, i, h) {
      PerFileHolds(inputs, analyze, h);
    }
  }

  lemma {:induction false} PerFileAgrees<M(!new)>(inputs: seq<GraphWithSource>, a: Analysis<M>, b: Analysis<M>)
    requires forall i: nat :: i < |inputs| && inputs[i].Graph.Some? ==>
               a(i, inputs[i].Graph.value) == b(i, inputs[i].Graph.value)
    ensures PerFile(inputs, a) == PerFile(inputs, b)
  {
    if inputs != [] {
      PerFileAgrees(inputs[..|inputs| - 1], a, b);
    }
  }

  /** What each rule finds for the input at a position, which may depend on the map order of that call. */
  type Batches<M> = (nat, WorkflowGraph, Rule) -> seq<Finding<M>>

  /** The concurrent analysis, when the goroutines of input i ran as in runs[i]. */
  ghost function Concurrently<M>(rules: seq<Rule>, batch: Batches<M>, runs: seq<seq<State>>): Analysis<M> {
    (i: nat, g: WorkflowGraph) =>
      if i < |runs| && runs[i] != [] then Report(rules, r => batch(i, g, r), runs[i][|runs[i]| - 1].combined) else []
  }

  ghost predicate AllComplete(rules: seq<Rule>, runs: seq<seq<State>>) {
    forall i :: 0 <= i < |runs| ==> IsRun(rules, runs[i]) && Finished(runs[i][|runs[i]| - 1])
  }

  ghost predicate AllAttributed<M(!new)>(rules: seq<Rule>, batch: Batches<M>) {
    forall i: nat, g, r, f :: r in rules && f in batch(i, g, r) ==> f.RuleName == r.name
  }

  /** For every input each rule gives its tied findings in the same order. */
  ghost predicate SameTiesThroughout<M(!new)>(rules: seq<Rule>, inputs: seq<GraphWithSource>, a: Batches<M>,
                                              b: Batches<M>) {
    forall i: nat, r :: i < |inputs| && inputs[i].Graph.Some? && r in rules ==>
      SameTies(Templates(rules), a(i, inputs[i].Graph.value, r), b(i, inputs[i].Graph.value, r))
  }

  /** The report of a directory does not depend on the schedule of any of its analyses. */
  lemma DirectoryIgnoresSchedules<M(!new)>(rules: seq<Rule>, a: Batches<M>, b: Batches<M>, inputs: seq<GraphWithSource>,
                                           runs: seq<seq<State>>, others: seq<seq<State>>,
                                           load: string -> IgnoreIndex, policy: Option<RulePolicy>)
    requires DistinctNames(rules) && |runs| == |others| == |inputs| && AllComplete(rules, runs)
    requires AllComplete(rules, others)
    requires AllAttributed(rules, a) && AllAttributed(rules, b) && SameTiesThroughout(rules, inputs, a, b)
    ensures DirectoryReport(inputs, Concurrently(rules, a, runs), load, policy)
         == DirectoryReport(inputs, Concurrently(rules, b, others), load, policy)
  {
    var x, y := Concurrently(rules, a, runs), Concurrently(rules, b, others);
    forall i: nat | i < |inputs| && inputs[i].Graph.Some?
      ensures x(i, inputs[i].Graph.value) == y(i, inputs[i].Graph.value)
    {
      var g := inputs[i].Graph.value;
      ScheduleIndependence(rules, r => a(i, g, r), r => b(i, g, r), runs[i], others[i]);
    }
    PerFileAgrees(inputs, x, y);
  }
}
