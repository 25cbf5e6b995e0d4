/** The workflow graph, its findings and the accessors the rules read them through. */
module Domain {

  datatype Option<+T> = None | Some(value: T)

  /** A decoded configuration value: what Go holds in an `any`. NaN and infinities are not modelled. */
  datatype Any =
    | Null
    | Bool(b: bool)
    | Int(i: int)
    | Float(r: real)
    | Str(s: string)
    | Arr(items: seq<Any>)
    | Strs(strs: seq<string>)
    | Obj(fields: map<string, Any>)

  datatype NodeType =
    | LLM | Tool | Control | Human | Output | Loop | Condition | Sequence | Parallel | Task
    | Other(code: int)

  /** The zero position is file "" and line 0. */
  datatype SourcePos = SourcePos(File: string, Line: int)

  /** A nil Config map reads as an empty one. */
  datatype Node = Node(
    ID: string,
    Name: string,
    Type: NodeType,
    Config: map<string, Any>,
    MaxIterations: Option<int>,
    ToolCategory: string,
    Pos: SourcePos,
    HasExitBranch: bool
  )

  /** A node with nothing configured. */
  function PlainNode(id: string): Node {
    Node(id, id, LLM, map[], None, "", SourcePos("", 0), false)
  }

  datatype Edge = Edge(From: string, To: string, Condition: string)

  datatype WorkflowGraph = WorkflowGraph(
    Nodes: map<string, Node>,
    Edges: seq<Edge>,
    EntryNodeID: string,
    EntryAmbiguous: bool
  ) {
    /** Nodes are stored under their own ID. */
    ghost predicate Keyed() {
      forall k :: k in Nodes ==> Nodes[k].ID == k
    }
  }

  datatype Severity = Info | Warning | Critical {
    function Rank(): int {
      match this
      case Info => 0
      case Warning => 1
      case Critical => 2
    }
  }

  /** M stands for the message: the template a rule chose together with its arguments, or plain text. */
  datatype Finding<+M> = Finding(
    RuleName: string,
    Severity: Severity,
    NodeID: string,
    Message: M,
    Confidence: real,
    MessageTemplateID: string,
    SourceFile: string
  )

  /** A finding as the rules build it, before the orchestrator stamps template and source file. */
  function NewFinding<M>(rule: string, severity: Severity, node: string, message: M, confidence: real): Finding<M> {
    Finding(rule, severity, node, message, confidence, "", "")
  }

  // ----- Edges

  function OutgoingEdges(edges: seq<Edge>, id: string): seq<Edge> {
    if edges == [] then []
    else (if edges[0].From == id then [edges[0]] else []) + OutgoingEdges(edges[1..], id)
  }

  function IncomingEdges(edges: seq<Edge>, id: string): seq<Edge> {
    if edges == [] then []
    else (if edges[0].To == id then [edges[0]] else []) + IncomingEdges(edges[1..], id)
  }

  lemma OutgoingEdgesAre(edges: seq<Edge>, id: string)
    ensures forall e :: e in OutgoingEdges(edges, id) <==> e in edges && e.From == id
  {}

  lemma IncomingEdgesAre(edges: seq<Edge>, id: string)
    ensures forall e :: e in IncomingEdges(edges, id) <==> e in edges && e.To == id
  {}

  /** An edge from u to x comes before every edge from u to y. */
  ghost predicate EdgeBefore(edges: seq<Edge>, u: string, x: string, y: string) {
    exists a :: 0 <= a < |edges| && edges[a].From == u && edges[a].To == x
                && forall b :: 0 <= b <= a ==> !(edges[b].From == u && edges[b].To == y)
  }

  lemma EdgeBeforeTail(edges: seq<Edge>, u: string, x: string, y: string)
    requires edges != []
    ensures EdgeBefore(edges, u, x, y) <==>
              if edges[0].From != u then EdgeBefore(edges[1..], u, x, y)
              else edges[0].To != y && (edges[0].To == x || EdgeBefore(edges[1..], u, x, y))
  {
    var rest := edges[1..];
    if EdgeBefore(edges, u, x, y) {
      var a :| 0 <= a < |edges| && edges[a].From == u && edges[a].To == x
        && forall b :: 0 <= b <= a ==> !(edges[b].From == u && edges[b].To == y);
      if a > 0 {
        assert rest[a - 1] == edges[a];
        assert forall b :: 0 <= b <= a - 1 ==> rest[b] == edges[b + 1];
      }
    }
    if EdgeBefore(rest, u, x, y) && !(edges[0].From == u && edges[0].To == y) {
      var a :| 0 <= a < |rest| && rest[a].From == u && rest[a].To == x
        && forall b :: 0 <= b <= a ==> !(rest[b].From == u && rest[b].To == y);
      assert edges[a + 1] == rest[a];
      assert forall b :: 0 < b <= a + 1 ==> edges[b] == rest[b - 1];
    }
  }

  /** The edges that come before all those to y are those listed before them. */
  lemma {:induction false} BeforeInOutgoing(edges: seq<Edge>, u: string, done: seq<Edge>, later: seq<Edge>, x: string)
    requires OutgoingEdges(edges, u) == done + later && later != []
    requires EdgeBefore(edges, u, x, later[0].To)
    ensures exists e :: e in done && e.To == x
  {
    var y := later[0].To;
    EdgeBeforeTail(edges, u, x, y);
    if edges[0].From != u {
      BeforeInOutgoing(edges[1..], u, done, later, x);
    } else {
      assert (done + later)[0] == edges[0] && done != [];
      assert done[0] in done;
      if edges[0].To != x {
        assert OutgoingEdges(edges, u)[1..] == OutgoingEdges(edges[1..], u);
        assert (done + later)[1..] == done[1..] + later;
        BeforeInOutgoing(edges[1..], u, done[1..], later, x);
      }
    }
  }

  /** Of two targets one comes first. */
  lemma {:induction false} EdgeBeforeIsTotal(edges: seq<Edge>, u: string, x: string, y: string)
    requires x != y && (exists e :: e in edges && e.From == u && e.To == x)
    ensures EdgeBefore(edges, u, x, y) || EdgeBefore(edges, u, y, x)
  {
    EdgeBeforeTail(edges, u, x, y);
    EdgeBeforeTail(edges, u, y, x);
    if !(edges[0].From == u && (edges[0].To == x || edges[0].To == y)) {
      EdgeBeforeIsTotal(edges[1..], u, x, y);
    }
  }

  /** Edges between existing nodes; dangling edges are dropped. */
  ghost function Links(g: WorkflowGraph): set<(string, string)> {
    set e | e in g.Edges && e.From in g.Nodes && e.To in g.Nodes :: (e.From, e.To)
  }

  /** Every edge, dangling or not. */
  ghost function RawLinks(g: WorkflowGraph): set<(string, string)> {
    set e | e in g.Edges :: (e.From, e.To)
  }

  // ----- Typed accessors

  predicate IsLoopNode(t: NodeType) {
    t == Loop || t == Control
  }

  /** Go's float-to-int conversion: truncation toward zero. */
  function Truncate(r: real): (n: int)
    ensures r >= 0.0 ==> n >= 0 && n as real <= r < (n + 1) as real
    ensures r < 0.0 ==> n <= 0 && (n - 1) as real < r <= n as real
  {
    if r >= 0.0 then r.Floor else -((-r).Floor)
  }

  function Digits(s: string, acc: int): Option<int> {
    if s == "" then Some(acc)
    else if '0' <= s[0] <= '9' then Digits(s[1..], 10 * acc + (s[0] as int - '0' as int))
    else None
  }

  /** strconv.Atoi on a 64-bit platform. */
  function Atoi(s: string): Option<int> {
    var neg := s != "" && s[0] == '-';
    var body := if s != "" && (s[0] == '-' || s[0] == '+') then s[1..] else s;
    if body == "" then None
    else
      match Digits(body, 0)
      case None => None
      case Some(n) =>
        var v := if neg then -n else n;
        if -0x8000_0000_0000_0000 <= v < 0x8000_0000_0000_0000 then Some(v) else None
  }

  function ConfigInt(cfg: map<string, Any>, key: string): Option<int> {
    if key !in cfg then None
    else
      match cfg[key]
      case Int(i) => Some(i)
      case Float(r) => Some(Truncate(r))
      case Str(s) => Atoi(s)
      case _ => None
  }

  function GetMaxIterations(n: Node): Option<int> {
    if n.MaxIterations.Some? then n.MaxIterations else ConfigInt(n.Config, "max_iterations")
  }

  /** Present and non-nil. */
  predicate ConfigPresent(n: Node, key: string) {
    key in n.Config && n.Config[key] != Null
  }

  function ConfigString(cfg: map<string, Any>, key: string): string {
    if key in cfg && cfg[key].Str? then cfg[key].s else ""
  }

  function GetToolCategory(n: Node): string {
    if n.ToolCategory != "" then n.ToolCategory else ConfigString(n.Config, "category")
  }

  // ----- What a configured number stands for

  /** The number that a string of decimal digits spells. */
  function Value(ds: string): int {
    if ds == "" then 0 else 10 * Value(ds[..|ds| - 1]) + (ds[|ds| - 1] as int - '0' as int)
  }

  predicate AllDigits(s: string) {
    forall i :: 0 <= i < |s| ==> '0' <= s[i] <= '9'
  }

  lemma {:induction false} ValueConcat(a: string, b: string)
    ensures Value(a + b) == Value(a) * Power(|b|) + Value(b)
  {
    if b == "" {
      assert a + b == a;
    } else {
      var n := |b| - 1;
      assert (a + b)[..|a + b| - 1] == a + b[..n];
      ValueConcat(a, b[..n]);
      assert Value(a + b) == 10 * Value(a + b[..n]) + (b[n] as int - '0' as int);
      assert 10 * (Value(a) * Power(n)) == Value(a) * Power(n + 1);
    }
  }

  /** 10 to the power n. */
  function Power(n: nat): nat {
    if n == 0 then 1 else 10 * Power(n - 1)
  }

  lemma Distributes(acc: int, d: int, p: int)
    ensures acc * (10 * p) + d * p == (10 * acc + d) * p
  {}

  lemma {:induction false} DigitsAreValue(s: string, acc: int)
    ensures Digits(s, acc) == if AllDigits(s) then Some(acc * Power(|s|) + Value(s)) else None
  {
    if s != "" {
      if '0' <= s[0] <= '9' {
        var d := s[0] as int - '0' as int;
        DigitsAreValue(s[1..], 10 * acc + d);
        assert AllDigits(s) <==> AllDigits(s[1..]) by {
          assert forall i :: 0 < i < |s| ==> s[i] == s[1..][i - 1];
        }
        assert [s[0]] + s[1..] == s && [s[0]][..0] == "";
        ValueConcat([s[0]], s[1..]);
        assert Value([s[0]]) == d;
        Distributes(acc, d, Power(|s| - 1));
      }
    }
  }

  /** A decimal numeral: an optional sign and digits. */
  ghost predicate Numeral(s: string, sign: string, ds: string) {
    s == sign + ds && sign in {"", "+", "-"} && ds != "" && AllDigits(ds)
  }

  ghost predicate Spells(s: string, v: int) {
    exists sign, ds :: Numeral(s, sign, ds) && v == if sign == "-" then -Value(ds) else Value(ds)
  }

  function Sign(s: string): string {
    if s != "" && (s[0] == '-' || s[0] == '+') then [s[0]] else ""
  }

  lemma SpellsIff(s: string, v: int)
    ensures var ds := s[|Sign(s)|..];
            Spells(s, v) <==> ds != "" && AllDigits(ds) && v == if Sign(s) == "-" then -Value(ds) else Value(ds)
  {
    var ds := s[|Sign(s)|..];
    if ds != "" && AllDigits(ds) {
      assert Numeral(s, Sign(s), ds);
    }
    forall sign, ds | Numeral(s, sign, ds) ensures sign == Sign(s) && ds == s[|Sign(s)|..] {
      SignIs(s, sign, ds);
    }
  }

  lemma SignIs(s: string, sign: string, ds: string)
    requires Numeral(s, sign, ds)
    ensures sign == Sign(s) && ds == s[|Sign(s)|..]
  {
    assert s[|sign|..] == ds && ds[0] == s[|sign|];
  }

  /** A numeral is read exactly when it spells a 64-bit number, and then as that number. */
  lemma AtoiIff(s: string, v: int)
    ensures Atoi(s) == Some(v) <==> Spells(s, v) && -0x8000_0000_0000_0000 <= v < 0x8000_0000_0000_0000
  {
    var ds := s[|Sign(s)|..];
    SpellsIff(s, v);
    DigitsAreValue(ds, 0);
    assert s == "" ==> ds == "";
    assert Sign(s) == "-" <==> s != "" && s[0] == '-';
    assert Sign(s) == "" ==> ds == s;
  }

  /** The integer that a configuration value stands for: itself, a float without its fraction, or a 64-bit numeral. */
  ghost predicate StandsFor(a: Any, v: int) {
    match a
    case Int(i) => v == i
    case Float(r) => if r >= 0.0 then v as real <= r < (v + 1) as real else (v - 1) as real < r <= v as real
    case Str(s) => Spells(s, v) && -0x8000_0000_0000_0000 <= v < 0x8000_0000_0000_0000
    case _ => false
  }

  /** The bound of a loop is its own field or, failing that, what its configuration stands for. */
  lemma MaxIterationsIff(n: Node, v: int)
    ensures GetMaxIterations(n) == Some(v) <==>
            n.MaxIterations == Some(v)
            || (n.MaxIterations == None && "max_iterations" in n.Config && StandsFor(n.Config["max_iterations"], v))
  {
    if "max_iterations" in n.Config && n.Config["max_iterations"].Str? {
      AtoiIff(n.Config["max_iterations"].s, v);
    }
  }

  /** A node's category is its own field or, failing that, a string in its configuration. */
  lemma CategoryIff(n: Node, c: string)
    requires c != ""
    ensures GetToolCategory(n) == c <==>
            n.ToolCategory == c || (n.ToolCategory == "" && "category" in n.Config && n.Config["category"] == Str(c))
  {}
}
