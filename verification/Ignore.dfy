/** Ignore markers and node-level ignore lists: two in-place passes over the findings. */
module Ignore {
  import opened Domain

  /** Append to the compacted front of a slice. */
  method Put<M>(a: array<Finding<M>>, k: nat, f: Finding<M>)
    requires k < a.Length
    modifies a
    ensures a[..k + 1] == old(a[..k]) + [f] && forall j :: k < j < a.Length ==> a[j] == old(a[j])
  {
    a[k] := f;
  }

  lemma PrefixSnoc<T>(s: seq<T>, i: nat)
    requires i < |s|
    ensures s[..i + 1] == s[..i] + [s[i]]
  {}

  lemma PrefixAll<T>(s: seq<T>)
    ensures s[..|s|] == s
  {}

  // ----- Ignore markers

  datatype IgnoreIndex = IgnoreIndex(fileLevel: set<string>, perLine: map<int, set<string>>) {
    predicate Suppressed(rule: string, line: int) {
      || "*" in fileLevel || rule in fileLevel
      || (line > 0 && line in perLine && ("*" in perLine[line] || rule in perLine[line]))
    }
  }

  /** Where a finding sits: file and line, line 0 when unknown. */
  type Resolver = (string, string) -> (string, int)

  predicate KeepUnignored<M>(resolve: Resolver, load: string -> IgnoreIndex, f: Finding<M>) {
    var (file, line) := resolve(f.SourceFile, f.NodeID);
    var path := if file == "" then f.SourceFile else file;
    path == "" || !load(path).Suppressed(f.RuleName, line)
  }

  function Unignored<M>(resolve: Resolver, load: string -> IgnoreIndex, fs: seq<Finding<M>>): seq<Finding<M>> {
    if fs == [] then []
    else
      var last := |fs| - 1;
      Unignored(resolve, load, fs[..last]) + if KeepUnignored(resolve, load, fs[last]) then [fs[last]] else []
  }

  lemma UnignoredConcat<M>(resolve: Resolver, load: string -> IgnoreIndex, fs: seq<Finding<M>>, f: Finding<M>)
    ensures Unignored(resolve, load, fs + [f]) ==
              Unignored(resolve, load, fs) + if KeepUnignored(resolve, load, f) then [f] else []
  {
    assert (fs + [f])[..|fs|] == fs;
  }

  /** Whether a marker hides the finding, loading each file at most once. */
  method Ignored<M>(f: Finding<M>, resolve: Resolver, load: string -> IgnoreIndex, cache0: map<string, IgnoreIndex>)
    returns (ignored: bool, cache: map<string, IgnoreIndex>)
    requires forall p :: p in cache0 ==> cache0[p] == load(p)
    ensures ignored <==> !KeepUnignored(resolve, load, f)
    ensures forall p :: p in cache ==> cache[p] == load(p)
  {
    cache := cache0;
    var (filePath, line) := resolve(f.SourceFile, f.NodeID);
    if filePath == "" {
      filePath := f.SourceFile;
    }
    if filePath == "" {
      return false, cache;
    }
    if filePath !in cache {
      cache := cache[filePath := load(filePath)];
    }
    return cache[filePath].Suppressed(f.RuleName, line), cache;
  }

  /** Reusing the backing array: the write position never overtakes the read position. */
  method FilterIgnoredFindings<M>(a: array<Finding<M>>, n: nat, resolve: Resolver, load: string -> IgnoreIndex)
    returns (k: nat)
    requires n <= a.Length
    modifies a
    ensures k <= n && a[..k] == Unignored(resolve, load, old(a[..n]))
    ensures forall j :: k <= j < a.Length ==> a[j] == old(a[j])
  {
    var cache: map<string, IgnoreIndex> := map[];
    ghost var was := a[..n];
    k := 0;
    for i := 0 to n
      invariant k <= i <= n == |was| && a[..k] == Unignored(resolve, load, was[..i])
      invariant forall j :: k <= j < a.Length ==> a[j] == old(a[j])
      invariant forall p :: p in cache ==> cache[p] == load(p)
    {
      var f := a[i];
      assert f == was[i];
      PrefixSnoc(was, i);
      UnignoredConcat(resolve, load, was[..i], f);
      var ignored;
      ignored, cache := Ignored(f, resolve, load, cache);
      if ignored {
        continue;
      }
      Put(a, k, f);
      k := k + 1;
    }
    PrefixAll(was);
  }

  // ----- Node-level ignore metadata

  predicate MetaSuppresses(raw: Any, rule: string) {
    match raw
    case Str(s) => s == "*" || s == rule
    case Strs(strs) => "*" in strs || rule in strs
    case Arr(items) => Str("*") in items || Str(rule) in items
    case _ => false
  }

  predicate KeepByMeta<M>(graphs: map<string, WorkflowGraph>, f: Finding<M>) {
    f.SourceFile !in graphs
    || f.NodeID !in graphs[f.SourceFile].Nodes
    || "_shingan_ignore" !in graphs[f.SourceFile].Nodes[f.NodeID].Config
    || !MetaSuppresses(graphs[f.SourceFile].Nodes[f.NodeID].Config["_shingan_ignore"], f.RuleName)
  }

  function KeptByMeta<M>(graphs: map<string, WorkflowGraph>, fs: seq<Finding<M>>): seq<Finding<M>> {
    if fs == [] then []
    else
      var last := |fs| - 1;
      KeptByMeta(graphs, fs[..last]) + if KeepByMeta(graphs, fs[last]) then [fs[last]] else []
  }

  lemma KeptByMetaConcat<M>(graphs: map<string, WorkflowGraph>, fs: seq<Finding<M>>, f: Finding<M>)
    ensures KeptByMeta(graphs, fs + [f]) == KeptByMeta(graphs, fs) + if KeepByMeta(graphs, f) then [f] else []
  {
    assert (fs + [f])[..|fs|] == fs;
  }

  method IgnoredByNode<M>(f: Finding<M>, graphs: map<string, WorkflowGraph>) returns (suppressed: bool)
    ensures suppressed <==> !KeepByMeta(graphs, f)
  {
    if f.SourceFile !in graphs {
      return false;
    }
    var nodes := graphs[f.SourceFile].Nodes;
    if f.NodeID !in nodes || "_shingan_ignore" !in nodes[f.NodeID].Config {
      return false;
    }
    return MetaSuppresses(nodes[f.NodeID].Config["_shingan_ignore"], f.RuleName);
  }

  method FilterByNodeIgnoreMeta<M>(a: array<Finding<M>>, n: nat, graphs: map<string, WorkflowGraph>) returns (k: nat)
    requires n <= a.Length
    modifies a
    ensures k <= n && a[..k] == KeptByMeta(graphs, old(a[..n])) && (forall j :: k <= j < a.Length ==> a[j] == old(a[j]))
  {
    ghost var was := a[..n];
    k := 0;
    for i := 0 to n
      invariant k <= i <= n == |was| && a[..k] == KeptByMeta(graphs, was[..i])
      invariant forall j :: k <= j < a.Length ==> a[j] == old(a[j])
    {
      var f := a[i];
      assert f == was[i];
      PrefixSnoc(was, i);
      var suppressed := IgnoredByNode(f, graphs);
      KeptByMetaConcat(graphs, was[..i], f);
      if !suppressed {
        Put(a, k, f);
        k := k + 1;
      }
    }
    PrefixAll(was);
  }
}
