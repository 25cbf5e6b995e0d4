/** The n8n parser, first pass: the node table and the identifiers in it. */
module N8n {
  import opened Domain
  import opened Ordering
  import opened Paths

  datatype RawNode = RawNode(ID: string, Name: string, Type: string, Parameters: map<string, Any>, Disabled: bool,
                             ShinganIgnore: seq<string>)

  /** Destination references by connection type, then output port, then position. */
  type Ports = map<string, seq<seq<string>>>

  datatype Workflow = Workflow(Nodes: seq<RawNode>, Connections: map<string, Ports>)

  /** The keyword tables over n8n type names: node type with tool category, and the sticky-note test. */
  datatype TypeTable = TypeTable(mapType: string -> (NodeType, string), sticky: string -> bool)

  /** The parser's lookup tables. */
  datatype Tables = Tables(nodes: map<string, Node>, nameToID: map<string, string>, uuidToID: map<string, string>,
                           order: seq<string>)

  // ----- Pass 1: nodes

  predicate Kept(t: TypeTable, raw: RawNode) {
    !raw.Disabled && !t.sticky(raw.Type)
  }

  function KeptNodes(t: TypeTable, raws: seq<RawNode>): seq<RawNode> {
    if raws == [] then []
    else (if Kept(t, raws[0]) then [raws[0]] else []) + KeptNodes(t, raws[1..])
  }

  function WantedID(raw: RawNode): string {
    if raw.Name == "" then raw.ID else raw.Name
  }

  function Itoa(n: nat): string {
    var digit := ['0' + (n % 10) as char];
    if n < 10 then digit else Itoa(n / 10) + digit
  }

  function Count(counter: map<string, nat>, id: string): nat {
    if id in counter then counter[id] else 0
  }

  function Suffixed(id: string, n: nat): string {
    id + "_" + Itoa(n)
  }

  /** The identifier the next kept node gets, and the counters after it. */
  function NextID(raw: RawNode, used: set<string>, counter: map<string, nat>): (string, map<string, nat>) {
    var id := WantedID(raw);
    if id in used then
      var n := Count(counter, id) + 1;
      (Suffixed(id, n), counter[id := n])
    else (id, counter)
  }

  /** Identifiers given out in array order: a taken one gets the next suffix of its own counter. */
  function AssignIDs(raws: seq<RawNode>, used: set<string>, counter: map<string, nat>): seq<string> {
    if raws == [] then []
    else
      var (id, counter') := NextID(raws[0], used, counter);
      [id] + AssignIDs(raws[1..], used + {id}, counter')
  }

  /** Identifiers of the kept nodes, in array order. */
  function IDs(t: TypeTable, wf: Workflow): seq<string> {
    AssignIDs(KeptNodes(t, wf.Nodes), {}, map[])
  }

  function AsAny(strs: seq<string>): seq<Any> {
    seq(|strs|, i requires 0 <= i < |strs| => Str(strs[i]))
  }

  function BuildNode(id: string, raw: RawNode, t: TypeTable): Node {
    var (nodeType, category) := t.mapType(raw.Type);
    var withCategory := if category != "" then raw.Parameters["category" := Str(category)] else raw.Parameters;
    var withType := withCategory["n8n_type" := Str(raw.Type)];
    var cfg :=
      if raw.ShinganIgnore != [] then withType["_shingan_ignore" := Arr(AsAny(raw.ShinganIgnore))] else withType;
    Node(id, raw.Name, nodeType, cfg, None, category, SourcePos("", 0), false)
  }

  /** Every table entry leads to a node, and nodes are stored under their own ID. */
  ghost predicate Consistent(s: Tables) {
    && (forall k :: k in s.nodes ==> s.nodes[k].ID == k)
    && (forall k :: k in s.nodes <==> k in s.order)
    && (forall n :: n in s.nameToID ==> s.nameToID[n] in s.nodes)
    && (forall n :: n in s.uuidToID ==> s.uuidToID[n] in s.nodes)
  }

  /** The tables after one more kept node. */
  function Register(t: TypeTable, raw: RawNode, s: Tables, counter: map<string, nat>): Tables {
    var id := NextID(raw, s.nodes.Keys, counter).0;
    Tables(
      s.nodes[id := BuildNode(id, raw, t)],
      s.nameToID[raw.Name := id],
      if raw.ID != "" then s.uuidToID[raw.ID := id] else s.uuidToID,
      s.order + [id])
  }

  function RegisterAll(t: TypeTable, raws: seq<RawNode>, s: Tables, counter: map<string, nat>): Tables {
    if raws == [] then s
    else if !Kept(t, raws[0]) then RegisterAll(t, raws[1..], s, counter)
    else RegisterAll(t, raws[1..], Register(t, raws[0], s, counter), NextID(raws[0], s.nodes.Keys, counter).1)
  }

  const EMPTY_TABLES := Tables(map[], map[], map[], [])

  method BuildNodes(wf: Workflow, t: TypeTable) returns (s: Tables)
    ensures s == RegisterAll(t, wf.Nodes, EMPTY_TABLES, map[])
  {
    var nodes: map<string, Node> := map[];
    var nameToID: map<string, string> := map[];
    var uuidToID: map<string, string> := map[];
    var nodeOrder: seq<string> := [];
    var suffixCounter: map<string, nat> := map[];
    for i := 0 to |wf.Nodes|
      invariant RegisterAll(t, wf.Nodes, EMPTY_TABLES, map[])
             == RegisterAll(t, wf.Nodes[i..], Tables(nodes, nameToID, uuidToID, nodeOrder), suffixCounter)
    {
      var raw := wf.Nodes[i];
      assert wf.Nodes[i..][1..] == wf.Nodes[i + 1..];
      if raw.Disabled || t.sticky(raw.Type) {
        continue;
      }
      var nodeID := WantedID(raw);
      if nodeID in nodes {
        suffixCounter := suffixCounter[nodeID := Count(suffixCounter, nodeID) + 1];
        nodeID := Suffixed(nodeID, suffixCounter[nodeID]);
      }
      nodes := nodes[nodeID := BuildNode(nodeID, raw, t)];
      nameToID := nameToID[raw.Name := nodeID];
      if raw.ID != "" {
        uuidToID := uuidToID[raw.ID := nodeID];
      }
      nodeOrder := nodeOrder + [nodeID];
    }
    return Tables(nodes, nameToID, uuidToID, nodeOrder);
  }

  ghost predicate Known(s: Tables, raw: RawNode) {
    raw.Name in s.nameToID && (raw.ID != "" ==> raw.ID in s.uuidToID)
  }

  lemma RegisterKeeps(t: TypeTable, raw: RawNode, s: Tables, counter: map<string, nat>)
    requires Consistent(s)
    ensures var r := Register(t, raw, s, counter);
            Consistent(r) && Known(r, raw) && forall x :: Known(s, x) ==> Known(r, x)
  {}

  /** The tables are consistent and know every kept node. */
  lemma {:induction false} RegisterAllKeeps(t: TypeTable, raws: seq<RawNode>, s: Tables, counter: map<string, nat>)
    requires Consistent(s)
    ensures var r := RegisterAll(t, raws, s, counter);
            && Consistent(r)
            && (forall x :: Known(s, x) ==> Known(r, x))
            && (forall x :: x in raws && Kept(t, x) ==> Known(r, x))
  {
    if raws != [] {
      if Kept(t, raws[0]) {
        RegisterKeeps(t, raws[0], s, counter);
        RegisterAllKeeps(t, raws[1..], Register(t, raws[0], s, counter), NextID(raws[0], s.nodes.Keys, counter).1);
      } else {
        RegisterAllKeeps(t, raws[1..], s, counter);
      }
    }
  }

  /** Node identifiers come out in array order. */
  lemma {:induction false} RegisterAllOrder(t: TypeTable, raws: seq<RawNode>, s: Tables, counter: map<string, nat>)
    ensures RegisterAll(t, raws, s, counter).order == s.order + AssignIDs(KeptNodes(t, raws), s.nodes.Keys, counter)
  {
    if raws != [] {
      if Kept(t, raws[0]) {
        var (id, counter') := NextID(raws[0], s.nodes.Keys, counter);
        var next := Register(t, raws[0], s, counter);
        RegisterAllOrder(t, raws[1..], next, counter');
        assert next.nodes.Keys == s.nodes.Keys + {id};
        assert KeptNodes(t, raws) == [raws[0]] + KeptNodes(t, raws[1..]);
        assert KeptNodes(t, raws)[1..] == KeptNodes(t, raws[1..]);
        Associative(s.order, [id], AssignIDs(KeptNodes(t, raws[1..]), s.nodes.Keys + {id}, counter'));
      } else {
        RegisterAllOrder(t, raws[1..], s, counter);
        assert KeptNodes(t, raws) == KeptNodes(t, raws[1..]);
      }
    }
  }

  ghost predicate DistinctWanted(raws: seq<RawNode>) {
    forall i, j :: 0 <= i < j < |raws| ==> WantedID(raws[i]) != WantedID(raws[j])
  }

  lemma {:induction false} AssignDistinct(raws: seq<RawNode>, used: set<string>, counter: map<string, nat>)
    requires DistinctWanted(raws)
    requires forall raw :: raw in raws ==> WantedID(raw) !in used
    ensures |AssignIDs(raws, used, counter)| == |raws|
    ensures forall i :: 0 <= i < |raws| ==> AssignIDs(raws, used, counter)[i] == WantedID(raws[i])
  {
    if raws != [] {
      assert raws[0] in raws;
      AssignDistinct(raws[1..], used + {WantedID(raws[0])}, counter);
    }
  }

  /** With distinct names no identifier is altered, so each kept n8n node has its own graph node. */
  lemma DistinctNamesKeepTheirIDs(t: TypeTable, wf: Workflow)
    requires DistinctWanted(KeptNodes(t, wf.Nodes))
    ensures var raws := KeptNodes(t, wf.Nodes);
            && Distinct(IDs(t, wf)) && |IDs(t, wf)| == |raws|
            && forall i :: 0 <= i < |raws| ==> IDs(t, wf)[i] == WantedID(raws[i])
  {
    AssignDistinct(KeptNodes(t, wf.Nodes), {}, map[]);
  }

  /** No kept node is waiting for an identifier that is taken. */
  ghost predicate FreshNames(t: TypeTable, raws: seq<RawNode>, s: Tables) {
    DistinctWanted(KeptNodes(t, raws)) && forall raw :: raw in KeptNodes(t, raws) ==> WantedID(raw) !in s.nodes
  }

  lemma FreshStep(t: TypeTable, raws: seq<RawNode>, s: Tables, counter: map<string, nat>)
    requires raws != [] && Kept(t, raws[0]) && FreshNames(t, raws, s)
    ensures NextID(raws[0], s.nodes.Keys, counter) == (WantedID(raws[0]), counter)
    ensures FreshNames(t, raws[1..], Register(t, raws[0], s, counter))
    ensures forall raw :: raw in KeptNodes(t, raws[1..]) ==> WantedID(raw) != WantedID(raws[0])
  {
    var kept, later := KeptNodes(t, raws), KeptNodes(t, raws[1..]);
    assert kept == [raws[0]] + later;
    assert kept[0] in kept;
    forall i, j | 0 <= i < j < |later| ensures WantedID(later[i]) != WantedID(later[j]) {
      assert kept[i + 1] == later[i] && kept[j + 1] == later[j];
    }
    forall raw | raw in later ensures WantedID(raw) != WantedID(raws[0]) && WantedID(raw) !in s.nodes {
      var i :| 0 <= i < |later| && later[i] == raw;
      assert kept[i + 1] == raw && raw in kept;
    }
  }

  /** Registering further nodes leaves earlier ones alone... */
  lemma {:induction false} NodesStay(t: TypeTable, raws: seq<RawNode>, s: Tables, counter: map<string, nat>, id: string)
    requires FreshNames(t, raws, s) && id in s.nodes
    ensures var r := RegisterAll(t, raws, s, counter); id in r.nodes && r.nodes[id] == s.nodes[id]
  {
    if raws != [] {
      if Kept(t, raws[0]) {
        assert KeptNodes(t, raws) == [raws[0]] + KeptNodes(t, raws[1..]);
        assert KeptNodes(t, raws)[0] in KeptNodes(t, raws);
        FreshStep(t, raws, s, counter);
        NodesStay(t, raws[1..], Register(t, raws[0], s, counter), counter, id);
      } else {
        assert KeptNodes(t, raws) == KeptNodes(t, raws[1..]);
        NodesStay(t, raws[1..], s, counter, id);
      }
    }
  }

  /** ...and so do references that are not given again; no other name becomes known. */
  lemma {:induction false} ReferencesStay(t: TypeTable, raws: seq<RawNode>, s: Tables, counter: map<string, nat>,
                                          key: string)
    requires FreshNames(t, raws, s)
    ensures var r := RegisterAll(t, raws, s, counter);
            && (!Names(KeptNodes(t, raws), key) ==> (key in r.nameToID <==> key in s.nameToID))
            && (!Names(KeptNodes(t, raws), key) && key in s.nameToID ==> r.nameToID[key] == s.nameToID[key])
            && (!Identifies(KeptNodes(t, raws), key) && key in s.uuidToID ==>
                  key in r.uuidToID && r.uuidToID[key] == s.uuidToID[key])
  {
    if raws != [] {
      var kept, later := KeptNodes(t, raws), KeptNodes(t, raws[1..]);
      if Kept(t, raws[0]) {
        assert kept == [raws[0]] + later;
        NamesSplit(raws[0], later, key);
        FreshStep(t, raws, s, counter);
        ReferencesStay(t, raws[1..], Register(t, raws[0], s, counter), counter, key);
      } else {
        assert kept == later;
        ReferencesStay(t, raws[1..], s, counter, key);
      }
    }
  }

  ghost predicate Names(raws: seq<RawNode>, name: string) {
    exists x :: x in raws && x.Name == name
  }

  ghost predicate Identifies(raws: seq<RawNode>, uuid: string) {
    exists x :: x in raws && x.ID == uuid
  }

  lemma NamesSplit(raw: RawNode, later: seq<RawNode>, key: string)
    ensures Names([raw] + later, key) <==> raw.Name == key || Names(later, key)
    ensures Identifies([raw] + later, key) <==> raw.ID == key || Identifies(later, key)
  {
    assert forall x :: x in [raw] + later <==> x == raw || x in later;
  }

  ghost predicate DistinctUUIDs(raws: seq<RawNode>) {
    forall i, j :: 0 <= i < j < |raws| && raws[i].ID != "" ==> raws[i].ID != raws[j].ID
  }

  /** What the tables hold for a kept node. */
  ghost predicate Represented(t: TypeTable, s: Tables, raw: RawNode) {
    var id := WantedID(raw);
    && id in s.nodes && s.nodes[id] == BuildNode(id, raw, t)
    && (raw.Name != "" ==> raw.Name in s.nameToID && s.nameToID[raw.Name] == id)
  }

  ghost predicate FoundByUUID(s: Tables, raw: RawNode) {
    raw.ID != "" ==> raw.ID in s.uuidToID && s.uuidToID[raw.ID] == WantedID(raw)
  }

  lemma {:induction false} KeptAreRepresented(t: TypeTable, raws: seq<RawNode>, s: Tables, counter: map<string, nat>,
                                              raw: RawNode)
    requires FreshNames(t, raws, s) && raw in KeptNodes(t, raws)
    ensures Represented(t, RegisterAll(t, raws, s, counter), raw)
    ensures DistinctUUIDs(KeptNodes(t, raws)) ==> FoundByUUID(RegisterAll(t, raws, s, counter), raw)
  {
    var kept, later := KeptNodes(t, raws), KeptNodes(t, raws[1..]);
    if Kept(t, raws[0]) {
      assert kept == [raws[0]] + later;
      FreshStep(t, raws, s, counter);
      if DistinctUUIDs(kept) {
        UUIDsStep(kept, raws[0], later);
      }
      if raw in later {
        KeptAreRepresented(t, raws[1..], Register(t, raws[0], s, counter), counter, raw);
      } else {
        FirstIsRepresented(t, raws, s, counter);
      }
    } else {
      assert kept == later;
      KeptAreRepresented(t, raws[1..], s, counter, raw);
    }
  }

  lemma FirstIsRepresented(t: TypeTable, raws: seq<RawNode>, s: Tables, counter: map<string, nat>)
    requires raws != [] && Kept(t, raws[0]) && FreshNames(t, raws, s)
    ensures Represented(t, RegisterAll(t, raws, s, counter), raws[0])
    ensures DistinctUUIDs(KeptNodes(t, raws)) ==> FoundByUUID(RegisterAll(t, raws, s, counter), raws[0])
  {
    var raw, later := raws[0], KeptNodes(t, raws[1..]);
    var next := Register(t, raw, s, counter);
    assert KeptNodes(t, raws) == [raw] + later;
    FreshStep(t, raws, s, counter);
    NodesStay(t, raws[1..], next, counter, WantedID(raw));
    ReferencesStay(t, raws[1..], next, counter, raw.Name);
    ReferencesStay(t, raws[1..], next, counter, raw.ID);
    assert raw.Name != "" ==> !Names(later, raw.Name);
    if DistinctUUIDs(KeptNodes(t, raws)) {
      UUIDsStep(KeptNodes(t, raws), raw, later);
    }
  }

  lemma UUIDsStep(kept: seq<RawNode>, raw: RawNode, later: seq<RawNode>)
    requires kept == [raw] + later && DistinctUUIDs(kept)
    ensures DistinctUUIDs(later) && (raw.ID != "" ==> forall x :: x in later ==> x.ID != raw.ID)
  {
    forall i, j | 0 <= i < j < |later| && later[i].ID != "" ensures later[i].ID != later[j].ID {
      assert kept[i + 1] == later[i] && kept[j + 1] == later[j];
    }
    forall x | x in later ensures raw.ID != "" ==> x.ID != raw.ID {
      var i :| 0 <= i < |later| && later[i] == x;
      assert kept[0] == raw && kept[i + 1] == x;
    }
  }

  /** A reference is a name or, failing that, a UUID; "" stands for neither. */
  function ResolveRef(s: Tables, ref: string): string {
    if ref in s.nameToID then s.nameToID[ref]
    else if ref in s.uuidToID then s.uuidToID[ref]
    else ""
  }

  /** The graph node has the type and category of the tables, and all parameters but those of reserved names. */
  ghost predicate CarriesOver(t: TypeTable, raw: RawNode, n: Node) {
    && n.Name == raw.Name && n.Type == t.mapType(raw.Type).0
    && n.MaxIterations == None && !n.HasExitBranch && "n8n_type" in n.Config && n.Config["n8n_type"] == Str(raw.Type)
    && (t.mapType(raw.Type).1 != "" ==> GetToolCategory(n) == t.mapType(raw.Type).1)
    && forall k :: k in raw.Parameters && k !in {"category", "n8n_type", "_shingan_ignore"} ==>
         k in n.Config && n.Config[k] == raw.Parameters[k]
  }

  lemma BuildNodeCarriesOver(id: string, raw: RawNode, t: TypeTable)
    ensures BuildNode(id, raw, t).ID == id && CarriesOver(t, raw, BuildNode(id, raw, t))
  {}

  /**
   * With distinct names, a reference by name and, unless it is also someone's name, one by UUID lead to the node built
   * from the n8n node they mean.
   */
  lemma ReferencesFindTheirNode(t: TypeTable, wf: Workflow, raw: RawNode)
    requires DistinctWanted(KeptNodes(t, wf.Nodes)) && raw in KeptNodes(t, wf.Nodes)
    ensures var s, id := RegisterAll(t, wf.Nodes, EMPTY_TABLES, map[]), WantedID(raw);
            && id in s.nodes && s.nodes[id] == BuildNode(id, raw, t) && CarriesOver(t, raw, s.nodes[id])
            && (raw.Name != "" ==> ResolveRef(s, raw.Name) == id)
            && (raw.ID != "" && DistinctUUIDs(KeptNodes(t, wf.Nodes)) && !Names(KeptNodes(t, wf.Nodes), raw.ID) ==>
                  ResolveRef(s, raw.ID) == id)
  {
    BuildNodeCarriesOver(WantedID(raw), raw, t);
    KeptAreRepresented(t, wf.Nodes, EMPTY_TABLES, map[], raw);
    ReferencesStay(t, wf.Nodes, EMPTY_TABLES, map[], raw.ID);
  }

  // ----- When identifiers are unique

  predicate IsDigits(s: string) {
    s != "" && forall i :: 0 <= i < |s| ==> '0' <= s[i] <= '9'
  }

  lemma {:induction false} ItoaIsDigits(n: nat)
    ensures IsDigits(Itoa(n)) && (n >= 10 ==> |Itoa(n)| >= 2) && (n < 10 ==> |Itoa(n)| == 1)
  {
    if n >= 10 {
      ItoaIsDigits(n / 10);
    }
  }

  lemma {:induction false} ItoaInjective(a: nat, b: nat)
    requires Itoa(a) == Itoa(b)
    ensures a == b
  {
    ItoaIsDigits(a);
    ItoaIsDigits(b);
    var s, n := Itoa(a), |Itoa(a)| - 1;
    assert s[n] == '0' + (a % 10) as char && s[n] == '0' + (b % 10) as char;
    if a >= 10 && b >= 10 {
      assert s[..n] == Itoa(a / 10) && s[..n] == Itoa(b / 10);
      ItoaInjective(a / 10, b / 10);
    }
  }

  lemma NoLaterUnderscore(x: string, a: nat, k: nat)
    requires |x| < k < |Suffixed(x, a)|
    ensures Suffixed(x, a)[k] != '_'
  {
    ItoaIsDigits(a);
    assert Suffixed(x, a)[k] == Itoa(a)[k - |x| - 1];
  }

  /** The suffix starts after the last underscore, so it can be read off. */
  lemma SuffixedInjective(x: string, a: nat, y: string, b: nat)
    requires Suffixed(x, a) == Suffixed(y, b)
    ensures x == y && a == b
  {
    var s := Suffixed(x, a);
    assert s[|x|] == '_' && s[|y|] == '_';
    if |x| < |y| {
      NoLaterUnderscore(x, a, |y|);
    } else if |y| < |x| {
      NoLaterUnderscore(y, b, |x|);
    }
    assert s[..|x|] == x && s[..|y|] == y;
    assert s[|x| + 1..] == Itoa(a) && s[|y| + 1..] == Itoa(b);
    ItoaInjective(a, b);
  }

  /** How many suffixes the name has been given after these names, in order; read off the names alone. */
  ghost function Issued(names: seq<string>, x: string): nat
    decreases |names|, 0
  {
    if names == [] then 0
    else
      var last := |names| - 1;
      Issued(names[..last], x) + if names[last] == x && Held(names[..last], x) then 1 else 0
  }

  /** The identifier is taken after these names: it is one of them, or a suffixed form given to one. */
  ghost predicate Held(names: seq<string>, id: string)
    decreases |names|, 1
  {
    id in names || exists y, d: nat :: 1 <= d <= Issued(names, y) && id == Suffixed(y, d)
  }

  /** The next name is a repetition whose next suffixed form is the name of an earlier node. */
  ghost predicate Collides(names: seq<string>, x: string) {
    Held(names, x) && Suffixed(x, Issued(names, x) + 1) in names
  }

  function Wanted(raws: seq<RawNode>): (names: seq<string>)
    ensures |names| == |raws| && forall i :: 0 <= i < |raws| ==> names[i] == WantedID(raws[i])
  {
    seq(|raws|, i requires 0 <= i < |raws| => WantedID(raws[i]))
  }

  /** `used` and `counter` are what these names have left behind. */
  ghost predicate Tracks(names: seq<string>, used: set<string>, counter: map<string, nat>) {
    && (forall id :: id in used <==> Held(names, id))
    && (forall x :: Count(counter, x) == Issued(names, x))
  }

  lemma HeldSnoc(names: seq<string>, x: string, id: string)
    ensures Held(names + [x], id) <==>
            Held(names, id) || id == if Held(names, x) then Suffixed(x, Issued(names, x) + 1) else x
  {
    var longer := names + [x];
    assert longer[..|names|] == names;
    assert forall y :: Issued(longer, y) == Issued(names, y) + if y == x && Held(names, x) then 1 else 0;
    if y, d: nat :| 1 <= d <= Issued(names, y) && id == Suffixed(y, d) {
      assert 1 <= d <= Issued(longer, y);
    }
    if Held(names, x) && id == Suffixed(x, Issued(names, x) + 1) {
      assert 1 <= Issued(names, x) + 1 <= Issued(longer, x);
    }
  }

  lemma TracksStep(names: seq<string>, raw: RawNode, used: set<string>, counter: map<string, nat>)
    requires Tracks(names, used, counter)
    ensures var (id, counter') := NextID(raw, used, counter);
            Tracks(names + [WantedID(raw)], used + {id}, counter') && (id in used <==> Collides(names, WantedID(raw)))
  {
    var x := WantedID(raw);
    var (id, counter') := NextID(raw, used, counter);
    forall k ensures k in used + {id} <==> Held(names + [x], k) {
      HeldSnoc(names, x, k);
    }
    assert (names + [x])[..|names|] == names;
    forall y ensures Count(counter', y) == Issued(names + [x], y) {
      assert Count(counter, y) == Issued(names, y);
    }
    if Held(names, x) && Held(names, id) && id !in names {
      var y, d: nat :| 1 <= d <= Issued(names, y) && id == Suffixed(y, d);
      SuffixedInjective(x, Issued(names, x) + 1, y, d);
    }
  }

  ghost predicate NeverCollides(names: seq<string>, later: seq<string>) {
    forall i :: 0 <= i < |later| ==> !Collides(names + later[..i], later[i])
  }

  lemma NeverCollidesStep(names: seq<string>, x: string, later: seq<string>)
    ensures NeverCollides(names, [x] + later) <==> !Collides(names, x) && NeverCollides(names + [x], later)
  {
    var all := [x] + later;
    assert names + all[..0] == names;
    assert forall i :: 0 <= i < |later| ==> names + all[..i + 1] == names + [x] + later[..i] && all[i + 1] == later[i];
    if NeverCollides(names, all) {
      assert !Collides(names + all[..0], all[0]);
      forall i | 0 <= i < |later| ensures !Collides(names + [x] + later[..i], later[i]) {
        assert !Collides(names + all[..i + 1], all[i + 1]);
      }
    }
    if !Collides(names, x) && NeverCollides(names + [x], later) {
      forall i | 0 <= i < |all| ensures !Collides(names + all[..i], all[i]) {
        if i > 0 {
          assert !Collides(names + [x] + later[..i - 1], later[i - 1]);
        }
      }
    }
  }

  ghost predicate FreshAndDistinct(ids: seq<string>, used: set<string>) {
    Distinct(ids) && forall id :: id in ids ==> id !in used
  }

  lemma FreshAndDistinctStep(id: string, ids: seq<string>, used: set<string>)
    ensures FreshAndDistinct([id] + ids, used) <==> id !in used && FreshAndDistinct(ids, used + {id})
  {
    var all := [id] + ids;
    assert forall i :: 0 <= i < |ids| ==> all[i + 1] == ids[i];
    assert forall x :: x in all <==> x == id || x in ids;
    if FreshAndDistinct(all, used) {
      forall i, j | 0 <= i < j < |ids| ensures ids[i] != ids[j] {
        assert all[i + 1] != all[j + 1];
      }
      forall x | x in ids ensures x != id {
        var j :| 0 <= j < |ids| && ids[j] == x;
        assert all[0] != all[j + 1];
      }
    }
  }

  lemma {:induction false} AssignedDistinctIff(names: seq<string>, raws: seq<RawNode>, used: set<string>,
                                               counter: map<string, nat>)
    requires Tracks(names, used, counter)
    ensures FreshAndDistinct(AssignIDs(raws, used, counter), used) <==> NeverCollides(names, Wanted(raws))
    decreases |raws|
  {
    if raws != [] {
      var x, later := WantedID(raws[0]), raws[1..];
      var (id, counter') := NextID(raws[0], used, counter);
      TracksStep(names, raws[0], used, counter);
      AssignedDistinctIff(names + [x], later, used + {id}, counter');
      assert Wanted(raws) == [x] + Wanted(later);
      OneMoreDistinct(names, x, Wanted(later), id, AssignIDs(later, used + {id}, counter'), used);
    }
  }

  lemma OneMoreDistinct(names: seq<string>, x: string, later: seq<string>, id: string, ids: seq<string>,
                        used: set<string>)
    requires id in used <==> Collides(names, x)
    requires FreshAndDistinct(ids, used + {id}) <==> NeverCollides(names + [x], later)
    ensures FreshAndDistinct([id] + ids, used) <==> NeverCollides(names, [x] + later)
  {
    FreshAndDistinctStep(id, ids, used);
    NeverCollidesStep(names, x, later);
  }

  lemma NothingHeld()
    ensures Tracks([], {}, map[])
  {}

  /**
   * Identifiers are unique exactly when no repeated name meets, as its next suffixed form, the name of an earlier node.
   * A suffix cannot be taken in any other way.
   */
  lemma IDsAreDistinctIff(t: TypeTable, wf: Workflow)
    ensures Distinct(IDs(t, wf)) <==> NeverCollides([], Wanted(KeptNodes(t, wf.Nodes)))
  {
    NothingHeld();
    AssignedDistinctIff([], KeptNodes(t, wf.Nodes), {}, map[]);
    assert FreshAndDistinct(IDs(t, wf), {}) <==> Distinct(IDs(t, wf));
  }

  /** So this also decides whether every kept n8n node gets a graph node of its own or some node is overwritten. */
  lemma NoNodeOverwrittenIff(t: TypeTable, wf: Workflow)
    ensures |RegisterAll(t, wf.Nodes, EMPTY_TABLES, map[]).nodes| == |KeptNodes(t, wf.Nodes)| <==> Distinct(IDs(t, wf))
  {
    var s := RegisterAll(t, wf.Nodes, EMPTY_TABLES, map[]);
    RegisterAllKeeps(t, wf.Nodes, EMPTY_TABLES, map[]);
    RegisterAllOrder(t, wf.Nodes, EMPTY_TABLES, map[]);
    assert EMPTY_TABLES.nodes.Keys == {} && s.order == IDs(t, wf);
    assert s.nodes.Keys == Elements(IDs(t, wf));
    AssignedCount(KeptNodes(t, wf.Nodes), {}, map[]);
    DistinctCount(IDs(t, wf));
  }

  lemma AssignedCount(raws: seq<RawNode>, used: set<string>, counter: map<string, nat>)
    ensures |AssignIDs(raws, used, counter)| == |raws|
  {}

  /** Names a, a_1, a: the third node gets the second one's identifier and replaces it in the node table. */
  lemma SuffixesCollide(t: TypeTable, wf: Workflow, x: RawNode, y: RawNode, z: RawNode)
    requires wf.Nodes == [x, y, z] && Kept(t, x) && Kept(t, y) && Kept(t, z)
    requires WantedID(x) == "a" && WantedID(y) == "a_1" && WantedID(z) == "a"
    ensures IDs(t, wf) == ["a", "a_1", "a_1"]
    ensures RegisterAll(t, wf.Nodes, EMPTY_TABLES, map[]).nodes ==
              map["a" := BuildNode("a", x, t), "a_1" := BuildNode("a_1", z, t)]
  {
    assert [x, y, z][1..] == [y, z] && [y, z][1..] == [z] && [z][1..] == [];
    assert KeptNodes(t, [z]) == [z] && KeptNodes(t, [y, z]) == [y, z] && KeptNodes(t, wf.Nodes) == [x, y, z];
    assert Suffixed("a", 1) == "a_1";
    assert NextID(x, {}, map[]) == ("a", map[]);
    assert NextID(y, {"a"}, map[]) == ("a_1", map[]);
    assert NextID(z, {"a", "a_1"}, map[]) == ("a_1", map["a" := 1]);
    assert {} + {"a"} == {"a"} && {"a"} + {"a_1"} == {"a", "a_1"};
    assert AssignIDs([z], {"a", "a_1"}, map[]) == ["a_1"];
    assert AssignIDs([y, z], {"a"}, map[]) == ["a_1", "a_1"];
    var s1 := Register(t, x, EMPTY_TABLES, map[]);
    var s2 := Register(t, y, s1, map[]);
    assert EMPTY_TABLES.nodes.Keys == {} && s1.nodes.Keys == {"a"} && s2.nodes.Keys == {"a", "a_1"};
    assert RegisterAll(t, [z], s2, map[]) == Register(t, z, s2, map[]);
    assert RegisterAll(t, [y, z], s1, map[]) == RegisterAll(t, [z], s2, map[]);
  }
}
