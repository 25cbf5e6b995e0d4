/** From the n8n document to the report: what a node's own ignore list hides. */
module N8nSuppression {
  import opened Domain
  import opened N8n
  import opened Ignore

  /** A node's own ignore list hides exactly the findings of the rules it names, or of all rules under "*". */
  lemma IgnoreListSuppresses<M>(id: string, raw: RawNode, t: TypeTable, file: string, g: WorkflowGraph, f: Finding<M>)
    requires raw.ShinganIgnore != [] && id in g.Nodes && g.Nodes[id] == BuildNode(id, raw, t)
    requires f.SourceFile == file && f.NodeID == id
    ensures KeepByMeta(map[file := g], f) <==> "*" !in raw.ShinganIgnore && f.RuleName !in raw.ShinganIgnore
  {
    var items := AsAny(raw.ShinganIgnore);
    forall s ensures Str(s) in items <==> s in raw.ShinganIgnore {
      if s in raw.ShinganIgnore {
        var i :| 0 <= i < |raw.ShinganIgnore| && raw.ShinganIgnore[i] == s;
        assert items[i] == Str(s);
      }
    }
    assert g.Nodes[id].Config["_shingan_ignore"] == Arr(items);
  }
}
