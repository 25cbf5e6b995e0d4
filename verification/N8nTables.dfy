/** What the n8n parser's tables hold, for every document: repeated names and identifiers included. */
module N8nTables {
  import opened Domain
  import opened Ordering
  import opened Selection
  import opened N8n

  // ----- Which nodes are kept

  function Enabled(t: TypeTable): RawNode -> bool {
    (raw: RawNode) => !raw.Disabled && !t.sticky(raw.Type)
  }

  lemma {:induction false} KeptSnoc(t: TypeTable, raws: seq<RawNode>, x: RawNode)
    ensures KeptNodes(t, raws + [x]) == KeptNodes(t, raws) + if Enabled(t)(x) then [x] else []
  {
    if raws == [] {
      assert [] + [x] == [x] && [x][1..] == [];
    } else {
      KeptSnoc(t, raws[1..], x);
      assert (raws + [x])[1..] == raws[1..] + [x];
    }
  }

  /** The enabled nodes that are no sticky notes, in array order, and no others. */
  lemma KeptAreEnabled(t: TypeTable, raws: seq<RawNode>)
    ensures Selects(raws, Enabled(t), KeptNodes(t, raws))
  {
    SelectsNothing(Enabled(t));
    assert raws[..0] == [];
    for n := 0 to |raws|
      invariant Selects(raws[..n], Enabled(t), KeptNodes(t, raws[..n]))
    {
      KeptSnoc(t, raws[..n], raws[n]);
      assert raws[..n + 1] == raws[..n] + [raws[n]];
      SelectsNext(raws, n, Enabled(t), KeptNodes(t, raws[..n]), KeptNodes(t, raws[..n + 1]));
    }
    assert raws[..|raws|] == raws;
    SelectsAll(raws, Enabled(t), KeptNodes(t, raws));
  }

  // ----- Their identifiers

  /** The name of a node, or its n8n identifier when it has no name. */
  ghost predicate CalledBy(raw: RawNode, name: string) {
    (raw.Name != "" ==> name == raw.Name) && (raw.Name == "" ==> name == raw.ID)
  }

  lemma AssignedIsNext(names: seq<string>, raw: RawNode, used: set<string>, counter: map<string, nat>)
    requires Tracks(names, used, counter)
    ensures var x := WantedID(raw);
            NextID(raw, used, counter).0 == if Held(names, x) then Suffixed(x, Issued(names, x) + 1) else x
  {
    assert Count(counter, WantedID(raw)) == Issued(names, WantedID(raw));
  }

  lemma WantedTail(names: seq<string>, raws: seq<RawNode>, i: nat)
    requires 0 < i < |raws|
    ensures names + Wanted(raws)[..i] == names + [WantedID(raws[0])] + Wanted(raws[1..])[..i - 1]
  {
    assert Wanted(raws) == [WantedID(raws[0])] + Wanted(raws[1..]);
    assert Wanted(raws)[..i] == [WantedID(raws[0])] + Wanted(raws[1..])[..i - 1];
  }

  lemma AssignedTail(raws: seq<RawNode>, used: set<string>, counter: map<string, nat>, i: nat)
    requires raws != [] && |AssignIDs(raws, used, counter)| == |raws|
    ensures var (id, counter') := NextID(raws[0], used, counter);
            && AssignIDs(raws, used, counter)[0] == id
            && |AssignIDs(raws[1..], used + {id}, counter')| == |raws| - 1
            && (0 < i < |raws| ==>
                  AssignIDs(raws, used, counter)[i] == AssignIDs(raws[1..], used + {id}, counter')[i - 1])
  {}

  /** The identifiers and counters in use when the i-th identifier is given. */
  lemma {:induction false} AssignedAt(names: seq<string>, raws: seq<RawNode>, used: set<string>,
                                      counter: map<string, nat>, i: nat, before: seq<string>)
    returns (used': set<string>, counter': map<string, nat>)
    requires Tracks(names, used, counter) && i < |raws| && before == names + Wanted(raws)[..i]
    requires |AssignIDs(raws, used, counter)| == |raws|
    ensures Tracks(before, used', counter') && AssignIDs(raws, used, counter)[i] == NextID(raws[i], used', counter').0
    decreases |raws|
  {
    AssignedTail(raws, used, counter, i);
    if i == 0 {
      assert before == names;
      used', counter' := used, counter;
    } else {
      var (id, next) := NextID(raws[0], used, counter);
      TracksStep(names, raws[0], used, counter);
      WantedTail(names, raws, i);
      used', counter' := AssignedAt(names + [WantedID(raws[0])], raws[1..], used + {id}, next, i - 1, before);
    }
  }

  lemma WantedAre(raws: seq<RawNode>, names: seq<string>)
    requires |names| == |raws| && forall j :: 0 <= j < |names| ==> CalledBy(raws[j], names[j])
    ensures names == Wanted(raws)
  {}

  lemma AssignedIDsAre(names: seq<string>, raws: seq<RawNode>, used: set<string>, counter: map<string, nat>, i: nat,
                       before: seq<string>)
    requires Tracks(names, used, counter) && i < |raws| && before == names + Wanted(raws)[..i]
    requires |AssignIDs(raws, used, counter)| == |raws|
    ensures var x := WantedID(raws[i]);
            AssignIDs(raws, used, counter)[i] == if Held(before, x) then Suffixed(x, Issued(before, x) + 1) else x
  {
    var used', counter' := AssignedAt(names, raws, used, counter, i, before);
    AssignedIsNext(before, raws[i], used', counter');
  }

  /**
   * A kept node is identified by its name if that is free, and otherwise by the name, an underscore and how often the
   * name has been given a suffix, this time included. A name is free until a node of that name, or one so suffixed,
   * came before.
   */
  lemma IDsAre(t: TypeTable, wf: Workflow, i: nat, names: seq<string>)
    requires i < |KeptNodes(t, wf.Nodes)| == |names|
    requires forall j :: 0 <= j < |names| ==> CalledBy(KeptNodes(t, wf.Nodes)[j], names[j])
    ensures |IDs(t, wf)| == |names|
    ensures IDs(t, wf)[i] ==
              if Held(names[..i], names[i]) then names[i] + "_" + Itoa(Issued(names[..i], names[i]) + 1) else names[i]
  {
    IDsOfAre(KeptNodes(t, wf.Nodes), i, names, names[..i]);
  }

  lemma IDsOfAre(raws: seq<RawNode>, i: nat, names: seq<string>, before: seq<string>)
    requires i < |raws| == |names| && before == names[..i]
    requires forall j :: 0 <= j < |names| ==> CalledBy(raws[j], names[j])
    ensures |AssignIDs(raws, {}, map[])| == |raws|
    ensures AssignIDs(raws, {}, map[])[i] ==
              if Held(before, names[i]) then Suffixed(names[i], Issued(before, names[i]) + 1) else names[i]
  {
    WantedAre(raws, names);
    NothingHeld();
    FirstIDsAre(raws, i, before, [], {}, map[]);
  }

  lemma FirstIDsAre(raws: seq<RawNode>, i: nat, before: seq<string>, none: seq<string>, used: set<string>,
                    counter: map<string, nat>)
    requires i < |raws| && before == Wanted(raws)[..i] && none == [] && Tracks(none, used, counter)
    ensures |AssignIDs(raws, used, counter)| == |raws|
    ensures var x := WantedID(raws[i]);
            AssignIDs(raws, used, counter)[i] == if Held(before, x) then Suffixed(x, Issued(before, x) + 1) else x
  {
    AssignedCount(raws, used, counter);
    assert before == none + Wanted(raws)[..i];
    AssignedIDsAre(none, raws, used, counter, i, before);
  }

  lemma {:induction false} ItoaIsDecimal(n: nat)
    ensures Itoa(n) != "" && AllDigits(Itoa(n)) && Value(Itoa(n)) == n
  {
    var s := Itoa(n);
    assert s[..|s| - 1] == if n < 10 then "" else Itoa(n / 10);
    if n >= 10 {
      ItoaIsDecimal(n / 10);
    }
  }

  // ----- What the tables hold

  /** No later node has the same identifier, name or n8n identifier. */
  ghost predicate LastWith(keys: seq<string>, i: nat) {
    i < |keys| && forall j :: i < j < |keys| ==> keys[j] != keys[i]
  }

  function NamesOf(raws: seq<RawNode>): (ks: seq<string>)
    ensures |ks| == |raws| && forall i :: 0 <= i < |raws| ==> ks[i] == raws[i].Name
  {
    seq(|raws|, i requires 0 <= i < |raws| => raws[i].Name)
  }

  function UUIDsOf(raws: seq<RawNode>): (ks: seq<string>)
    ensures |ks| == |raws| && forall i :: 0 <= i < |raws| ==> ks[i] == raws[i].ID
  {
    seq(|raws|, i requires 0 <= i < |raws| => raws[i].ID)
  }

  /** The map holds, for every key, the last value listed with it. */
  ghost predicate HoldsLast<V>(m: map<string, V>, keys: seq<string>, values: seq<V>) {
    && |keys| == |values| && (forall k :: k in m <==> k in keys)
    && forall i: nat :: LastWith(keys, i) ==> m[keys[i]] == values[i]
  }

  lemma LastWithSnoc(keys: seq<string>, x: string, i: nat)
    ensures LastWith(keys + [x], i) <==> i == |keys| || (LastWith(keys, i) && keys[i] != x)
  {
    var longer := keys + [x];
    if i < |keys| {
      assert longer[i] == keys[i] && longer[|keys|] == x;
      assert forall j :: i < j < |keys| ==> keys[j] == longer[j];
    }
  }

  lemma HoldsLastPut<V>(m: map<string, V>, keys: seq<string>, values: seq<V>, k: string, v: V)
    requires HoldsLast(m, keys, values)
    ensures HoldsLast(m[k := v], keys + [k], values + [v])
  {
    var keys', values', m' := keys + [k], values + [v], m[k := v];
    forall i: nat | LastWith(keys', i) ensures m'[keys'[i]] == values'[i] {
      LastWithSnoc(keys, k, i);
    }
  }

  function Built(t: TypeTable, ids: seq<string>, kept: seq<RawNode>): (ns: seq<Node>)
    requires |ids| == |kept|
    ensures |ns| == |ids| && forall i :: 0 <= i < |ids| ==> ns[i] == BuildNode(ids[i], kept[i], t)
  {
    seq(|ids|, i requires 0 <= i < |ids| => BuildNode(ids[i], kept[i], t))
  }

  /** As HoldsLast, but without an entry for the empty key. */
  ghost predicate HoldsLastNamed<V>(m: map<string, V>, keys: seq<string>, values: seq<V>) {
    && |keys| == |values| && (forall k :: k in m <==> k in keys && k != "")
    && forall i: nat :: LastWith(keys, i) && keys[i] != "" ==> m[keys[i]] == values[i]
  }

  lemma HoldsLastNamedPut<V>(m: map<string, V>, keys: seq<string>, values: seq<V>, k: string, v: V)
    requires HoldsLastNamed(m, keys, values)
    ensures HoldsLastNamed(if k != "" then m[k := v] else m, keys + [k], values + [v])
  {
    var keys', values', m' := keys + [k], values + [v], if k != "" then m[k := v] else m;
    forall i: nat | LastWith(keys', i) && keys'[i] != "" ensures m'[keys'[i]] == values'[i] {
      LastWithSnoc(keys, k, i);
    }
  }

  /** For every identifier the last node that got it; for every name and n8n identifier the last node that bears it. */
  ghost predicate TablesHold(t: TypeTable, kept: seq<RawNode>, s: Tables) {
    && |s.order| == |kept| && HoldsLast(s.nodes, s.order, Built(t, s.order, kept))
    && HoldsLast(s.nameToID, NamesOf(kept), s.order) && HoldsLastNamed(s.uuidToID, UUIDsOf(kept), s.order)
  }

  lemma RegisterHolds(t: TypeTable, kept: seq<RawNode>, raw: RawNode, s: Tables, counter: map<string, nat>)
    requires TablesHold(t, kept, s)
    ensures TablesHold(t, kept + [raw], Register(t, raw, s, counter))
  {
    var id := NextID(raw, s.nodes.Keys, counter).0;
    HoldsLastPut(s.nodes, s.order, Built(t, s.order, kept), id, BuildNode(id, raw, t));
    HoldsLastPut(s.nameToID, NamesOf(kept), s.order, raw.Name, id);
    HoldsLastNamedPut(s.uuidToID, UUIDsOf(kept), s.order, raw.ID, id);
    assert Built(t, s.order + [id], kept + [raw]) == Built(t, s.order, kept) + [BuildNode(id, raw, t)];
    assert NamesOf(kept + [raw]) == NamesOf(kept) + [raw.Name] && UUIDsOf(kept + [raw]) == UUIDsOf(kept) + [raw.ID];
  }

  lemma KeptStep(t: TypeTable, raws: seq<RawNode>, kept: seq<RawNode>, all: seq<RawNode>)
    requires raws != [] && all == kept + KeptNodes(t, raws)
    ensures all == if Kept(t, raws[0]) then kept + [raws[0]] + KeptNodes(t, raws[1..])
                   else kept + KeptNodes(t, raws[1..])
  {
    Associative(kept, [raws[0]], KeptNodes(t, raws[1..]));
    assert [] + KeptNodes(t, raws[1..]) == KeptNodes(t, raws[1..]);
  }

  lemma {:induction false} RegisterAllHold(t: TypeTable, kept: seq<RawNode>, raws: seq<RawNode>, s: Tables,
                                           counter: map<string, nat>, all: seq<RawNode>)
    requires TablesHold(t, kept, s) && all == kept + KeptNodes(t, raws)
    ensures TablesHold(t, all, RegisterAll(t, raws, s, counter))
    decreases |raws|
  {
    if raws == [] {
      assert all == kept;
    } else if Kept(t, raws[0]) {
      RegisterHolds(t, kept, raws[0], s, counter);
      KeptStep(t, raws, kept, all);
      RegisterAllHold(t, kept + [raws[0]], raws[1..], Register(t, raws[0], s, counter),
                      NextID(raws[0], s.nodes.Keys, counter).1, all);
    } else {
      KeptStep(t, raws, kept, all);
      RegisterAllHold(t, kept, raws[1..], s, counter, all);
    }
  }

  /** The tables of a document. */
  lemma TablesOf(t: TypeTable, wf: Workflow)
    ensures TablesHold(t, KeptNodes(t, wf.Nodes), RegisterAll(t, wf.Nodes, EMPTY_TABLES, map[]))
  {
    assert TablesHold(t, [], EMPTY_TABLES);
    assert [] + KeptNodes(t, wf.Nodes) == KeptNodes(t, wf.Nodes);
    RegisterAllHold(t, [], wf.Nodes, EMPTY_TABLES, map[], KeptNodes(t, wf.Nodes));
  }

  lemma {:induction false} LastOccurrence(keys: seq<string>, k: string) returns (i: nat)
    requires k in keys
    ensures LastWith(keys, i) && keys[i] == k
  {
    var n := |keys| - 1;
    if keys[n] == k {
      i := n;
    } else {
      i := LastOccurrence(keys[..n], k);
    }
  }

  /** A graph node built from this n8n node: its name, type, category and parameters. */
  ghost predicate BuiltFrom(t: TypeTable, id: string, raw: RawNode, n: Node) {
    n.ID == id && CarriesOver(t, raw, n)
  }

  /** Every graph node stems from an enabled n8n node that is no sticky note. */
  lemma NodesStem(t: TypeTable, wf: Workflow, id: string)
    requires id in RegisterAll(t, wf.Nodes, EMPTY_TABLES, map[]).nodes
    ensures exists raw :: raw in wf.Nodes && !raw.Disabled && !t.sticky(raw.Type)
              && BuiltFrom(t, id, raw, RegisterAll(t, wf.Nodes, EMPTY_TABLES, map[]).nodes[id])
  {
    var s, kept := RegisterAll(t, wf.Nodes, EMPTY_TABLES, map[]), KeptNodes(t, wf.Nodes);
    TablesOf(t, wf);
    var i := LastOccurrence(s.order, id);
    KeptAreEnabled(t, wf.Nodes);
    SelectsMembers(wf.Nodes, Enabled(t), kept);
    assert kept[i] in kept && Enabled(t)(kept[i]);
    BuildNodeCarriesOver(id, kept[i], t);
  }

  /**
   * A reference leads to the last node of that name, and if no node
   * has the name to the last one with that n8n identifier.
   */
  lemma ReferencesLead(t: TypeTable, kept: seq<RawNode>, s: Tables, ref: string, i: nat)
    requires TablesHold(t, kept, s)
    ensures LastWith(NamesOf(kept), i) && kept[i].Name == ref ==> ResolveRef(s, ref) == s.order[i]
    ensures ref !in NamesOf(kept) && LastWith(UUIDsOf(kept), i) && kept[i].ID == ref != "" ==>
              ResolveRef(s, ref) == s.order[i]
    ensures ref !in NamesOf(kept) && (ref !in UUIDsOf(kept) || ref == "") ==> ResolveRef(s, ref) == ""
  {}
}
