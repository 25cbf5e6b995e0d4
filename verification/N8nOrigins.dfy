/** Which connection of the document each edge stems from, and in what order. */
module N8nOrigins {
  import opened Domain
  import opened Ordering
  import opened N8n
  import opened N8nEdges
  import opened N8nTables

  /** A place in the document: source, connection type, output port and position there. */
  datatype Origin =
    | Main(src: string, port: nat, pos: nat)
    | Ai(src: string, kind: string, port: nat, pos: nat)

  function KindOf(o: Origin): string {
    if o.Main? then "main" else o.kind
  }

  /** There is such a place, in the outputs of a source that resolves. */
  ghost predicate InDocument(wf: Workflow, s: Tables, o: Origin) {
    && o.src in wf.Connections && ResolveRef(s, o.src) != ""
    && KindOf(o) in wf.Connections[o.src]
    && (o.Ai? ==> o.kind != "main" && "ai_" <= o.kind)
    && o.port < |wf.Connections[o.src][KindOf(o)]| && o.pos < |wf.Connections[o.src][KindOf(o)][o.port]|
  }

  function RefAt(wf: Workflow, o: Origin): string
    requires o.src in wf.Connections && KindOf(o) in wf.Connections[o.src]
    requires o.port < |wf.Connections[o.src][KindOf(o)]| && o.pos < |wf.Connections[o.src][KindOf(o)][o.port]|
  {
    wf.Connections[o.src][KindOf(o)][o.port][o.pos]
  }

  /** Its target resolves; only by name for an ai_* connection. */
  ghost predicate Connects(wf: Workflow, s: Tables, o: Origin) {
    InDocument(wf, s, o) && if o.Main? then ResolveRef(s, RefAt(wf, o)) != "" else RefAt(wf, o) in s.nameToID
  }

  /** The branches of a Condition node are "true" and "false"; other ports beside the first are numbered. */
  ghost predicate Labelled(condition: bool, port: nat, text: string) {
    && (port == 0 && condition ==> text == "true") && (port == 0 && !condition ==> text == "")
    && (port == 1 && condition ==> text == "false")
    && ((port == 1 && !condition) || port > 1 ==>
          "branch_" <= text && AllDigits(text[|"branch_"|..]) && Value(text[|"branch_"|..]) == port
          && text[|"branch_"|..] == Itoa(port))
  }

  /** The edge that the place makes. */
  ghost predicate Makes(wf: Workflow, s: Tables, o: Origin, e: Edge) {
    && Connects(wf, s, o) && e.From == ResolveRef(s, o.src)
    && if o.Main? then
         e.To == ResolveRef(s, RefAt(wf, o))
         && Labelled(e.From in s.nodes && s.nodes[e.From].Type == Condition, o.port, e.Condition)
       else e.To == s.nameToID[RefAt(wf, o)] && e.Condition == o.kind
  }

  /** o must come before p: sources in string order, main before ai_*, ports and positions ascending. */
  ghost predicate Before(o: Origin, p: Origin) {
    || (o.src != p.src && Alphabetical(o.src, p.src))
    || (o.src == p.src && o.Main? && p.Ai?)
    || (o.src == p.src && KindOf(o) == KindOf(p) && (o.port < p.port || (o.port == p.port && o.pos < p.pos)))
  }

  lemma BranchIsLabelled(condition: bool, port: nat)
    ensures Labelled(condition, port, BranchCondition(condition, port))
  {
    ItoaIsDecimal(port);
    var text := "branch_" + Itoa(port);
    assert text[|"branch_"|..] == Itoa(port);
  }

  // ----- Listing places and edges side by side

  ghost predicate Ordered(os: seq<Origin>) {
    forall i, j :: 0 <= i < j < |os| ==> os[i] != os[j] && !Before(os[j], os[i])
  }

  /** The places with the property, once each and in order, with the edges they make. */
  ghost predicate Enumerates(wf: Workflow, s: Tables, os: seq<Origin>, es: seq<Edge>, member: Origin -> bool) {
    && |os| == |es| && (forall i :: 0 <= i < |os| ==> Makes(wf, s, os[i], es[i]))
    && (forall o :: o in os <==> member(o)) && Ordered(os)
  }

  lemma EnumeratesNothing(wf: Workflow, s: Tables, member: Origin -> bool)
    requires forall o :: !member(o)
    ensures Enumerates(wf, s, [], [], member)
  {}

  lemma EnumeratesBoth(wf: Workflow, s: Tables, a: seq<Origin>, x: seq<Edge>, b: seq<Origin>, y: seq<Edge>,
                       first: Origin -> bool, second: Origin -> bool, both: Origin -> bool)
    requires Enumerates(wf, s, a, x, first) && Enumerates(wf, s, b, y, second)
    requires forall o :: both(o) <==> first(o) || second(o)
    requires forall o, p :: first(o) && second(p) ==> o != p && !Before(p, o)
    ensures Enumerates(wf, s, a + b, x + y, both)
  {
    OrderedBoth(a, b);
    MakesBoth(wf, s, a, x, b, y);
    assert forall o :: o in a + b <==> o in a || o in b;
  }

  lemma OrderedBoth(a: seq<Origin>, b: seq<Origin>)
    requires Ordered(a) && Ordered(b) && forall o, p :: o in a && p in b ==> o != p && !Before(p, o)
    ensures Ordered(a + b)
  {
    var os := a + b;
    forall i, j | 0 <= i < j < |os| ensures os[i] != os[j] && !Before(os[j], os[i]) {
      if i < |a| && j >= |a| {
        assert os[i] in a && os[j] in b;
      }
    }
  }

  lemma MakesBoth(wf: Workflow, s: Tables, a: seq<Origin>, x: seq<Edge>, b: seq<Origin>, y: seq<Edge>)
    requires |a| == |x| && |b| == |y| && (forall i :: 0 <= i < |a| ==> Makes(wf, s, a[i], x[i]))
    requires forall i :: 0 <= i < |b| ==> Makes(wf, s, b[i], y[i])
    ensures forall i :: 0 <= i < |a + b| ==> Makes(wf, s, (a + b)[i], (x + y)[i])
  {
    forall i | 0 <= i < |a + b| ensures Makes(wf, s, (a + b)[i], (x + y)[i]) {
      if i >= |a| {
        assert Makes(wf, s, b[i - |a|], y[i - |a|]);
      }
    }
  }

  lemma EnumeratesOne(wf: Workflow, s: Tables, o: Origin, e: Edge, member: Origin -> bool)
    requires Makes(wf, s, o, e) && forall p :: member(p) <==> p == o
    ensures Enumerates(wf, s, [o], [e], member)
  {}

  // ----- One port, one connection type, one source

  ghost function PlacesAtPort(wf: Workflow, s: Tables, src: string, kind: string, port: nat, n: nat): Origin -> bool {
    (o: Origin) => Connects(wf, s, o) && o.src == src && KindOf(o) == kind && o.port == port && o.pos < n
  }

  ghost function PlacesOfKind(wf: Workflow, s: Tables, src: string, kind: string, n: nat): Origin -> bool {
    (o: Origin) => Connects(wf, s, o) && o.src == src && KindOf(o) == kind && o.port < n
  }

  function Place(src: string, kind: string, port: nat, pos: nat): Origin {
    if kind == "main" then Main(src, port, pos) else Ai(src, kind, port, pos)
  }

  lemma PlaceIs(wf: Workflow, s: Tables, o: Origin)
    requires Connects(wf, s, o)
    ensures o == Place(o.src, KindOf(o), o.port, o.pos)
  {}

  /** The edges of one port, of whichever type. */
  function EdgesAtPort(s: Tables, from: string, kind: string, port: nat, refs: seq<string>): seq<Edge> {
    if kind == "main" then MainRefs(s, from, BranchCondition(IsConditionNode(s, from), port), refs)
    else AiRefs(s, from, kind, refs)
  }

  function EdgesOfKind(s: Tables, from: string, kind: string, outputs: seq<seq<string>>): seq<Edge> {
    if kind == "main" then MainEdges(s, from, outputs) else AiEdges(s, from, kind, outputs)
  }

  ghost predicate Ported(wf: Workflow, s: Tables, src: string, kind: string) {
    && src in wf.Connections && kind in wf.Connections[src] && ResolveRef(s, src) != ""
    && (kind == "main" || IsAiPort(kind))
  }

  lemma AtPortNext(wf: Workflow, s: Tables, src: string, kind: string, port: nat, n: nat)
    requires Ported(wf, s, src, kind) && port < |wf.Connections[src][kind]| && n < |wf.Connections[src][kind][port]|
    ensures var refs, from := wf.Connections[src][kind][port], ResolveRef(s, src);
            var before := EdgesAtPort(s, from, kind, port, refs[..n]);
            var after := EdgesAtPort(s, from, kind, port, refs[..n + 1]);
            if Connects(wf, s, Place(src, kind, port, n))
            then exists e :: after == before + [e] && Makes(wf, s, Place(src, kind, port, n), e)
            else after == before
  {
    var refs, from := wf.Connections[src][kind][port], ResolveRef(s, src);
    assert refs[..n + 1][..n] == refs[..n];
    BranchIsLabelled(IsConditionNode(s, from), port);
    var o := Place(src, kind, port, n);
    assert RefAt(wf, o) == refs[n];
    if Connects(wf, s, o) {
      var e := if kind == "main"
               then Edge(from, ResolveRef(s, refs[n]), BranchCondition(IsConditionNode(s, from), port))
               else Edge(from, s.nameToID[refs[n]], kind);
      assert Makes(wf, s, o, e);
    }
  }

  lemma OriginsAtPort(wf: Workflow, s: Tables, src: string, kind: string, port: nat) returns (os: seq<Origin>)
    requires Ported(wf, s, src, kind) && port < |wf.Connections[src][kind]|
    ensures var refs := wf.Connections[src][kind][port];
            Enumerates(wf, s, os, EdgesAtPort(s, ResolveRef(s, src), kind, port, refs),
                       PlacesAtPort(wf, s, src, kind, port, |refs|))
  {
    var refs, from := wf.Connections[src][kind][port], ResolveRef(s, src);
    os := [];
    assert refs[..0] == [];
    EnumeratesNothing(wf, s, PlacesAtPort(wf, s, src, kind, port, 0));
    for n := 0 to |refs|
      invariant Enumerates(wf, s, os, EdgesAtPort(s, from, kind, port, refs[..n]),
                           PlacesAtPort(wf, s, src, kind, port, n))
    {
      os := OneMorePlace(wf, s, src, kind, port, n, os);
    }
    assert refs[..|refs|] == refs;
  }

  lemma OneMorePlace(wf: Workflow, s: Tables, src: string, kind: string, port: nat, n: nat, os: seq<Origin>)
    returns (more: seq<Origin>)
    requires Ported(wf, s, src, kind) && port < |wf.Connections[src][kind]| && n < |wf.Connections[src][kind][port]|
    requires Enumerates(wf, s, os, EdgesAtPort(s, ResolveRef(s, src), kind, port, wf.Connections[src][kind][port][..n]),
                        PlacesAtPort(wf, s, src, kind, port, n))
    ensures Enumerates(wf, s, more,
                       EdgesAtPort(s, ResolveRef(s, src), kind, port, wf.Connections[src][kind][port][..n + 1]),
                       PlacesAtPort(wf, s, src, kind, port, n + 1))
  {
    var refs, from, o := wf.Connections[src][kind][port], ResolveRef(s, src), Place(src, kind, port, n);
    AtPortNext(wf, s, src, kind, port, n);
    var now, next := PlacesAtPort(wf, s, src, kind, port, n), PlacesAtPort(wf, s, src, kind, port, n + 1);
    if Connects(wf, s, o) {
      var before := EdgesAtPort(s, from, kind, port, refs[..n]);
      var e :| EdgesAtPort(s, from, kind, port, refs[..n + 1]) == before + [e] && Makes(wf, s, o, e);
      EnumeratesOne(wf, s, o, e, (p: Origin) => p == o);
      EnumeratesBoth(wf, s, os, before, [o], [e], now, (p: Origin) => p == o, next);
      more := os + [o];
    } else {
      forall p ensures now(p) <==> next(p) {
        if next(p) {
          PlaceIs(wf, s, p);
        }
      }
      more := os;
    }
  }

  lemma OfKindNext(s: Tables, from: string, kind: string, outputs: seq<seq<string>>, n: nat)
    requires n < |outputs|
    ensures EdgesOfKind(s, from, kind, outputs[..n + 1]) ==
              EdgesOfKind(s, from, kind, outputs[..n]) + EdgesAtPort(s, from, kind, n, outputs[n])
  {
    assert outputs[..n + 1][..n] == outputs[..n];
  }

  lemma OneMorePort(wf: Workflow, s: Tables, src: string, kind: string, n: nat, os: seq<Origin>)
    returns (more: seq<Origin>)
    requires Ported(wf, s, src, kind) && n < |wf.Connections[src][kind]|
    requires Enumerates(wf, s, os, EdgesOfKind(s, ResolveRef(s, src), kind, wf.Connections[src][kind][..n]),
                        PlacesOfKind(wf, s, src, kind, n))
    ensures Enumerates(wf, s, more, EdgesOfKind(s, ResolveRef(s, src), kind, wf.Connections[src][kind][..n + 1]),
                       PlacesOfKind(wf, s, src, kind, n + 1))
  {
    var outputs, from := wf.Connections[src][kind], ResolveRef(s, src);
    var here := OriginsAtPort(wf, s, src, kind, n);
    OfKindNext(s, from, kind, outputs, n);
    EnumeratesBoth(wf, s, os, EdgesOfKind(s, from, kind, outputs[..n]), here, EdgesAtPort(s, from, kind, n, outputs[n]),
                   PlacesOfKind(wf, s, src, kind, n), PlacesAtPort(wf, s, src, kind, n, |outputs[n]|),
                   PlacesOfKind(wf, s, src, kind, n + 1));
    more := os + here;
  }

  lemma OriginsOfKind(wf: Workflow, s: Tables, src: string, kind: string) returns (os: seq<Origin>)
    requires Ported(wf, s, src, kind)
    ensures var outputs := wf.Connections[src][kind];
            Enumerates(wf, s, os, EdgesOfKind(s, ResolveRef(s, src), kind, outputs),
                       PlacesOfKind(wf, s, src, kind, |outputs|))
  {
    var outputs, from := wf.Connections[src][kind], ResolveRef(s, src);
    os := [];
    assert outputs[..0] == [];
    EnumeratesNothing(wf, s, PlacesOfKind(wf, s, src, kind, 0));
    for n := 0 to |outputs|
      invariant Enumerates(wf, s, os, EdgesOfKind(s, from, kind, outputs[..n]), PlacesOfKind(wf, s, src, kind, n))
    {
      os := OneMorePort(wf, s, src, kind, n, os);
    }
    assert outputs[..|outputs|] == outputs;
  }

  // ----- All connection types of a source, and all sources

  ghost function MainOf(wf: Workflow, s: Tables, src: string): Origin -> bool {
    (o: Origin) => Connects(wf, s, o) && o.src == src && o.Main?
  }

  ghost function AiOf(wf: Workflow, s: Tables, src: string, kinds: seq<string>): Origin -> bool {
    (o: Origin) => Connects(wf, s, o) && o.src == src && o.Ai? && o.kind in kinds
  }

  ghost function OfSource(wf: Workflow, s: Tables, src: string): Origin -> bool {
    (o: Origin) => Connects(wf, s, o) && o.src == src
  }

  ghost function OfSources(wf: Workflow, s: Tables, srcs: seq<string>): Origin -> bool {
    (o: Origin) => Connects(wf, s, o) && o.src in srcs
  }

  ghost function OfKind(wf: Workflow, s: Tables, src: string, kind: string): Origin -> bool {
    (o: Origin) => Connects(wf, s, o) && o.src == src && KindOf(o) == kind
  }

  lemma SameMembers(wf: Workflow, s: Tables, os: seq<Origin>, es: seq<Edge>, a: Origin -> bool, b: Origin -> bool)
    requires Enumerates(wf, s, os, es, a) && forall o :: a(o) <==> b(o)
    ensures Enumerates(wf, s, os, es, b)
  {}

  lemma OriginsOfMain(wf: Workflow, s: Tables, src: string) returns (os: seq<Origin>)
    requires src in wf.Connections && ResolveRef(s, src) != ""
    ensures Enumerates(wf, s, os, MainEdges(s, ResolveRef(s, src), Outputs(wf.Connections[src], "main")),
                       MainOf(wf, s, src))
  {
    if "main" in wf.Connections[src] {
      os := OriginsOfKind(wf, s, src, "main");
      var outputs := wf.Connections[src]["main"];
      SameMembers(wf, s, os, MainEdges(s, ResolveRef(s, src), outputs), PlacesOfKind(wf, s, src, "main", |outputs|),
                  MainOf(wf, s, src));
    } else {
      EnumeratesNothing(wf, s, MainOf(wf, s, src));
      os := [];
    }
  }

  lemma OriginsOfAi(wf: Workflow, s: Tables, src: string, kind: string) returns (os: seq<Origin>)
    requires src in wf.Connections && ResolveRef(s, src) != "" && kind in wf.Connections[src]
    ensures Enumerates(wf, s, os, PortEdges(s, ResolveRef(s, src), wf.Connections[src], kind), AiOf(wf, s, src, [kind]))
  {
    if IsAiPort(kind) {
      os := OriginsOfKind(wf, s, src, kind);
      var outputs := wf.Connections[src][kind];
      SameMembers(wf, s, os, AiEdges(s, ResolveRef(s, src), kind, outputs), PlacesOfKind(wf, s, src, kind, |outputs|),
                  AiOf(wf, s, src, [kind]));
    } else {
      EnumeratesNothing(wf, s, AiOf(wf, s, src, [kind]));
      os := [];
    }
  }

  lemma {:induction false} OriginsOfPorts(wf: Workflow, s: Tables, src: string, kinds: seq<string>)
    returns (os: seq<Origin>)
    requires src in wf.Connections && ResolveRef(s, src) != "" && forall k :: k in kinds ==> k in wf.Connections[src]
    requires forall i, j :: 0 <= i < j < |kinds| ==> kinds[i] != kinds[j]
    ensures Enumerates(wf, s, os, PortsEdges(s, ResolveRef(s, src), wf.Connections[src], kinds),
                       AiOf(wf, s, src, kinds))
  {
    if kinds == [] {
      EnumeratesNothing(wf, s, AiOf(wf, s, src, []));
      os := [];
    } else {
      var n := |kinds| - 1;
      var init, last := kinds[..n], kinds[n];
      var before := OriginsOfPorts(wf, s, src, init);
      var here := OriginsOfAi(wf, s, src, last);
      assert kinds == init + [last] && last !in init;
      EnumeratesBoth(wf, s, before, PortsEdges(s, ResolveRef(s, src), wf.Connections[src], init), here,
                     PortEdges(s, ResolveRef(s, src), wf.Connections[src], last), AiOf(wf, s, src, init),
                     AiOf(wf, s, src, [last]), AiOf(wf, s, src, kinds));
      os := before + here;
    }
  }

  lemma OriginsOfSource(wf: Workflow, s: Tables, src: string, order: seq<string>) returns (os: seq<Origin>)
    requires OrdersPorts(wf, src, order)
    ensures Enumerates(wf, s, os, SourceEdges(wf, s, src, order), OfSource(wf, s, src))
  {
    ListsEachOnce(order, wf.Connections[src].Keys);
    if ResolveRef(s, src) == "" {
      EnumeratesNothing(wf, s, OfSource(wf, s, src));
      os := [];
    } else {
      var from, ports := ResolveRef(s, src), wf.Connections[src];
      var main := OriginsOfMain(wf, s, src);
      var ai := OriginsOfPorts(wf, s, src, order);
      EnumeratesBoth(wf, s, main, MainEdges(s, from, Outputs(ports, "main")), ai, PortsEdges(s, from, ports, order),
                     MainOf(wf, s, src), AiOf(wf, s, src, order), OfSource(wf, s, src));
      os := main + ai;
    }
  }

  lemma {:induction false} OriginsOfSources(wf: Workflow, s: Tables, srcs: seq<string>, orders: seq<seq<string>>)
    returns (os: seq<Origin>)
    requires OrdersAllPorts(wf, srcs, orders) && SortedBy(StrLe, srcs)
    requires forall i, j :: 0 <= i < j < |srcs| ==> srcs[i] != srcs[j]
    ensures Enumerates(wf, s, os, AllEdges(wf, s, srcs, orders), OfSources(wf, s, srcs))
  {
    if srcs == [] {
      EnumeratesNothing(wf, s, OfSources(wf, s, []));
      os := [];
    } else {
      var n := |srcs| - 1;
      var init, last := srcs[..n], srcs[n];
      var before := OriginsOfSources(wf, s, init, orders[..n]);
      var here := OriginsOfSource(wf, s, last, orders[n]);
      SourcesComeLater(srcs);
      EnumeratesBoth(wf, s, before, AllEdges(wf, s, init, orders[..n]), here, SourceEdges(wf, s, last, orders[n]),
                     OfSources(wf, s, init), OfSource(wf, s, last), OfSources(wf, s, srcs));
      os := before + here;
    }
  }

  lemma SourcesComeLater(srcs: seq<string>)
    requires srcs != [] && SortedBy(StrLe, srcs) && forall i, j :: 0 <= i < j < |srcs| ==> srcs[i] != srcs[j]
    ensures var init, last := srcs[..|srcs| - 1], srcs[|srcs| - 1];
            && (forall x :: x in srcs <==> x in init || x == last)
            && forall x :: x in init ==> x != last && !Alphabetical(last, x)
  {
    var init, last := srcs[..|srcs| - 1], srcs[|srcs| - 1];
    assert srcs == init + [last];
    forall x | x in init ensures x != last && !Alphabetical(last, x) {
      var i :| 0 <= i < |init| && init[i] == x;
      assert srcs[i] == x && StrLe(x, last);
      StrLeIsAlphabetical(last, x);
      if StrLe(last, x) {
        StrLeAntisymmetric(last, x);
      }
    }
  }

  ghost predicate AnyConnection(wf: Workflow, s: Tables, os: seq<Origin>, es: seq<Edge>) {
    && |os| == |es| && (forall i :: 0 <= i < |os| ==> Makes(wf, s, os[i], es[i]))
    && (forall o :: o in os <==> Connects(wf, s, o)) && Ordered(os)
  }

  /** The edge list of a document: the edges of all its connections, each once and in order. */
  lemma EdgesStemFromConnections(wf: Workflow, s: Tables, edges: seq<Edge>)
    requires IsEdgeList(wf, s, edges)
    ensures exists os :: AnyConnection(wf, s, os, edges)
  {
    var srcs: seq<string>, orders: seq<seq<string>> :|
      ListsSources(wf, srcs) && OrdersAllPorts(wf, srcs, orders) && edges == AllEdges(wf, s, srcs, orders);
    ListsEachOnce(srcs, wf.Connections.Keys);
    var os := OriginsOfSources(wf, s, srcs, orders);
    assert forall o :: OfSources(wf, s, srcs)(o) <==> Connects(wf, s, o);
    assert AnyConnection(wf, s, os, edges);
  }
}
