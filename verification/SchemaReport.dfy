/** unbounded_tool_arg: which positions are reported, in terms of the schemas themselves. */
module SchemaReport {
  import opened Domain
  import opened SchemaWalk

  // ----- Schemas and what is wrong with them

  ghost predicate TypeIs(t: Any, name: string) {
    t.Obj? && "type" in t.fields && t.fields["type"] == Str(name)
  }

  ghost predicate HasNumber(t: Any, key: string, v: real) {
    t.Obj? && key in t.fields && (t.fields[key] == Float(v) || exists i :: t.fields[key] == Int(i) && v == i as real)
  }

  ghost predicate Unlimited(t: Any, key: string) {
    forall v :: !HasNumber(t, key, v)
  }

  /** A string without length limit or with one above 100000, an array without one, a number without a maximum. */
  ghost predicate Offends(t: Any, o: Offence) {
    match o
    case StringUnbounded => TypeIs(t, "string") && Unlimited(t, "maxLength")
    case StringTooLong(v) => TypeIs(t, "string") && HasNumber(t, "maxLength", v) && v > 100000.0
    case ArrayUnbounded => TypeIs(t, "array") && Unlimited(t, "maxItems")
    case NumberUnbounded(kind) => kind in {"number", "integer"} && TypeIs(t, kind) && Unlimited(t, "maximum")
  }

  /** The schema one step further down: that of a property, or that of the items. */
  function Down(t: Any, step: Step): Option<Any> {
    if !t.Obj? then None
    else
      match step
      case Property(name) =>
        if "properties" in t.fields && t.fields["properties"].Obj? && name in t.fields["properties"].fields
           && t.fields["properties"].fields[name].Obj?
        then Some(t.fields["properties"].fields[name]) else None
      case Items => if "items" in t.fields && t.fields["items"].Obj? then Some(t.fields["items"]) else None
      case Key(_) => None
  }

  function Follow(t: Any, steps: Path): Option<Any> {
    if steps == [] then Some(t)
    else
      match Down(t, steps[0])
      case None => None
      case Some(u) => Follow(u, steps[1..])
  }

  /** The schema at a position of the node. */
  function SchemaAt(n: Node, path: Path): Option<Any> {
    if path != [] && path[0].Key? && path[0].name in ["args_schema", "parameters", "input_schema"]
       && path[0].name in n.Config && n.Config[path[0].name].Obj?
    then Follow(n.Config[path[0].name], path[1..])
    else None
  }

  ghost predicate OffendsAt(n: Node, f: Field) {
    SchemaAt(n, f.path).Some? && Offends(SchemaAt(n, f.path).value, f.offence)
  }

  /** What is said of an offence. */
  ghost predicate Told(node: string, f: FieldFinding) {
    && f.RuleName == "unbounded_tool_arg" && f.NodeID == node && f.MessageTemplateID == "" && f.SourceFile == ""
    && match f.Message.offence
       case StringUnbounded => f.Severity == Warning && f.Confidence == 0.7
       case StringTooLong(_) => f.Severity == Info && f.Confidence == 0.5
       case ArrayUnbounded => f.Severity == Warning && f.Confidence == 0.7
       case NumberUnbounded(_) => f.Severity == Info && f.Confidence == 0.4
  }

  // ----- The walk finds them

  lemma NumericKeyIff(s: Schema, key: string, v: real)
    ensures NumericKey(s, key) == Some(v) <==> HasNumber(s, key, v)
  {}

  lemma UnlimitedIff(s: Schema, key: string)
    ensures NumericKey(s, key).None? <==> Unlimited(s, key)
  {
    if NumericKey(s, key).Some? {
      NumericKeyIff(s, key, NumericKey(s, key).value);
    }
    forall v ensures NumericKey(s, key) == Some(v) <==> HasNumber(s, key, v) {
      NumericKeyIff(s, key, v);
    }
  }

  lemma ClassifyIff(s: Schema, o: Offence)
    ensures Classify(s) == Some(o) <==> Offends(s, o)
  {
    UnlimitedIff(s, "maxLength");
    UnlimitedIff(s, "maxItems");
    UnlimitedIff(s, "maximum");
    forall v ensures NumericKey(s, "maxLength") == Some(v) <==> HasNumber(s, "maxLength", v) {
      NumericKeyIff(s, "maxLength", v);
    }
  }

  lemma DownIsChild(s: Schema, step: Step)
    ensures Down(s, step) == Child(s, step)
  {}

  lemma {:induction false} OffendingIff(s: Schema, path: Path, steps: Path, o: Offence)
    ensures Field(path + steps, o) in OffendingAt(s, path) <==>
            Follow(s, steps).Some? && Follow(s, steps).value.Obj? && Offends(Follow(s, steps).value, o)
    decreases |steps|
  {
    var f := Field(path + steps, o);
    if steps == [] {
      assert path + steps == path;
      ClassifyIff(s, o);
      OwnIsNotBelow(s, path);
      if f in OffendingBelow(s, path) {
        PathsAreBelow(s, path, f);
      }
    } else {
      var step, rest := steps[0], steps[1..];
      assert path + steps == path + [step] + rest && (path + steps)[|path|] == step;
      DownIsChild(s, step);
      assert f !in Own(s, path) by {
        assert |path + steps| > |path|;
      }
      if f in OffendingBelow(s, path) {
        BelowIsInAChild(s, path, f);
        OffendingIff(Child(s, step).value, path + [step], rest, o);
      }
      if Child(s, step).Some? {
        OffendingIff(Child(s, step).value, path + [step], rest, o);
        if f in OffendingAt(Child(s, step).value, path + [step]) {
          InChildIsBelow(s, path, step, f);
        }
      }
    }
  }

  lemma InChildIsBelow(s: Schema, path: Path, step: Step, f: Field)
    requires Child(s, step).Some? && f in OffendingAt(Child(s, step).value, path + [step])
    ensures f in OffendingBelow(s, path)
  {}

  lemma UnderIff(n: Node, key: string, f: Field)
    requires key in ["args_schema", "parameters", "input_schema"]
    ensures f in OffendingUnder(n, key) <==> f.path != [] && f.path[0] == Key(key) && OffendsAt(n, f)
  {
    if key in n.Config && n.Config[key].Obj? {
      var s := n.Config[key];
      if f.path != [] && f.path[0] == Key(key) {
        assert f.path == [Key(key)] + f.path[1..] && f == Field(f.path, f.offence);
        OffendingIff(s, [Key(key)], f.path[1..], f.offence);
        FollowedIsSchema(s, f.path[1..]);
      } else if f in OffendingUnder(n, key) {
        PathsAreBelow(s, [Key(key)], f);
      }
    }
  }

  lemma {:induction false} FollowedIsSchema(t: Any, steps: Path)
    requires t.Obj?
    ensures Follow(t, steps).Some? ==> Follow(t, steps).value.Obj?
  {
    if steps != [] && Down(t, steps[0]).Some? {
      FollowedIsSchema(Down(t, steps[0]).value, steps[1..]);
    }
  }

  /** The offending fields are the positions whose schema offends, each with its offence. */
  lemma AllOffendingIff(n: Node, f: Field)
    ensures f in AllOffending(n) <==> OffendsAt(n, f)
  {
    assert SCHEMA_KEYS[0] == "args_schema" && SCHEMA_KEYS[1] == "parameters" && SCHEMA_KEYS[2] == "input_schema";
    UnderIff(n, "args_schema", f);
    UnderIff(n, "parameters", f);
    UnderIff(n, "input_schema", f);
    assert Offending(n, 0) == {};
    assert Offending(n, 1) == Offending(n, 0) + OffendingUnder(n, SCHEMA_KEYS[0]);
    assert Offending(n, 2) == Offending(n, 1) + OffendingUnder(n, SCHEMA_KEYS[1]);
    assert Offending(n, 3) == Offending(n, 2) + OffendingUnder(n, SCHEMA_KEYS[2]);
    assert OffendsAt(n, f) ==> f.path[0].name in ["args_schema", "parameters", "input_schema"];
  }

  // ----- The rule

  /** A position under one schema key is reported only when all those under the keys before it are. */
  ghost predicate KeysInTurn(n: Node, fs: seq<FieldFinding>) {
    forall f, k, m :: f in fs && 0 <= k < m < 3 && f.Message in OffendingUnder(n, SCHEMA_KEYS[m]) ==>
      OffendingUnder(n, SCHEMA_KEYS[k]) <= Fields(fs)
  }

  lemma {:induction false} UnderIsOffending(n: Node, k: nat, m: nat)
    requires k < m <= |SCHEMA_KEYS|
    ensures OffendingUnder(n, SCHEMA_KEYS[k]) <= Offending(n, m)
  {
    if k < m - 1 {
      UnderIsOffending(n, k, m - 1);
    }
  }

  lemma KeysStayInTurn(n: Node, k: nat, before: seq<FieldFinding>, after: seq<FieldFinding>)
    requires k < |SCHEMA_KEYS| && Collects(n.ID, [], before, Offending(n, k)) && |before| < MAX_FINDINGS
    requires Collects(n.ID, [], after, Offending(n, k + 1)) && before <= after
    ensures KeysInTurn(n, after)
  {
    FieldsGrow(before, after);
    assert |SCHEMA_KEYS| == 3;
    forall f, j, m | f in after && 0 <= j < m < 3 && f.Message in OffendingUnder(n, SCHEMA_KEYS[m])
      ensures OffendingUnder(n, SCHEMA_KEYS[j]) <= Fields(after)
    {
      assert f.Message in Fields(after) && f.Message in Offending(n, k + 1);
      if m > k {
        KeysAreDisjoint(n, k + 1, m);
      } else {
        UnderIsOffending(n, j, k);
      }
    }
  }

  /**
   * Whatever the map order, the number of findings is the number of offending positions under all schema keys, capped
   * at five; each finding is at a different position and says what is wrong there; earlier keys come first.
   */
  method EvaluateUnboundedToolArg(n: Node) returns (findings: seq<FieldFinding>)
    ensures forall f :: f in AllOffending(n) <==> OffendsAt(n, f)
    ensures |findings| == if |AllOffending(n)| < 5 then |AllOffending(n)| else 5
    ensures forall i, j :: 0 <= i < j < |findings| ==> findings[i].Message.path != findings[j].Message.path
    ensures forall f :: f in findings ==> OffendsAt(n, f.Message) && Told(n.ID, f)
    ensures KeysInTurn(n, findings)
  {
    findings := CollectKeys(n);
    FindingsAreTold(n, findings);
  }

  /** All offending fields, or as many as the cap allows. */
  ghost predicate Collected(n: Node, fs: seq<FieldFinding>) {
    && Open(n.ID, fs, {}) && Fields(fs) <= AllOffending(n) && (|fs| < MAX_FINDINGS ==> AllOffending(n) <= Fields(fs))
    && KeysInTurn(n, fs)
  }

  /** The first k keys are done and there is room for more. */
  ghost predicate Underway(n: Node, k: nat, fs: seq<FieldFinding>)
    requires k <= |SCHEMA_KEYS|
  {
    Collects(n.ID, [], fs, Offending(n, k)) && |fs| < MAX_FINDINGS && KeysInTurn(n, fs)
  }

  lemma Begins(n: Node)
    ensures Underway(n, 0, [])
  {}

  lemma Ends(n: Node, k: nat, before: seq<FieldFinding>, after: seq<FieldFinding>)
    requires k < |SCHEMA_KEYS| && Underway(n, k, before)
    requires Collects(n.ID, [], after, Offending(n, k + 1)) && before <= after
    ensures |after| < MAX_FINDINGS ==> Underway(n, k + 1, after)
    ensures |after| >= MAX_FINDINGS ==> Collected(n, after) && after[..MAX_FINDINGS] == after
  {
    KeysStayInTurn(n, k, before, after);
    OffendingGrows(n, k + 1, |SCHEMA_KEYS|);
  }

  method CollectKeys(n: Node) returns (findings: seq<FieldFinding>)
    ensures Collected(n, findings)
  {
    findings := [];
    Begins(n);
    var keys := |SCHEMA_KEYS|;
    for k := 0 to keys
      invariant Underway(n, k, findings)
    {
      ghost var before := findings;
      findings := EvaluateKey(n, k, findings);
      Ends(n, k, before, findings);
      if |findings| >= MAX_FINDINGS {
        return findings[..MAX_FINDINGS];
      }
    }
  }

  lemma FindingsAreTold(n: Node, fs: seq<FieldFinding>)
    requires Collected(n, fs)
    ensures |fs| == if |AllOffending(n)| < 5 then |AllOffending(n)| else 5
    ensures forall f :: f in AllOffending(n) <==> OffendsAt(n, f)
    ensures forall i, j :: 0 <= i < j < |fs| ==> fs[i].Message.path != fs[j].Message.path
    ensures forall f :: f in fs ==> OffendsAt(n, f.Message) && Told(n.ID, f)
  {
    FieldsOffend(n);
    CountedAndFound(n, fs, AllOffending(n));
    AllAreTold(n.ID, fs);
    PathsDiffer(n, fs);
  }

  lemma AllAreTold(node: string, fs: seq<FieldFinding>)
    requires Open(node, fs, {})
    ensures forall f :: f in fs ==> Told(node, f)
  {}

  lemma CountedAndFound(n: Node, fs: seq<FieldFinding>, all: set<Field>)
    requires Open(n.ID, fs, {}) && Fields(fs) <= all && (|fs| < MAX_FINDINGS ==> all <= Fields(fs))
    requires forall f :: f in all <==> OffendsAt(n, f)
    ensures |fs| == if |all| < 5 then |all| else 5
    ensures OncePerField(fs) && forall f :: f in fs ==> OffendsAt(n, f.Message)
  {
    Counted(n, fs, all);
  }

  lemma FieldsOffend(n: Node)
    ensures forall f :: f in AllOffending(n) <==> OffendsAt(n, f)
  {
    forall f ensures f in AllOffending(n) <==> OffendsAt(n, f) {
      AllOffendingIff(n, f);
    }
  }

  lemma PathsDiffer(n: Node, fs: seq<FieldFinding>)
    requires OncePerField(fs) && forall f :: f in fs ==> OffendsAt(n, f.Message)
    ensures forall i, j :: 0 <= i < j < |fs| ==> fs[i].Message.path != fs[j].Message.path
  {
    forall i, j | 0 <= i < j < |fs| ensures fs[i].Message.path != fs[j].Message.path {
      assert OffendsAt(n, fs[i].Message) && OffendsAt(n, fs[j].Message);
      SamePathSameField(n, fs[i].Message, fs[j].Message);
    }
  }

  lemma SamePathSameField(n: Node, f: Field, g: Field)
    requires OffendsAt(n, f) && OffendsAt(n, g)
    ensures f.path == g.path ==> f == g
  {
    if f.path == g.path {
      OffenceIsUnique(SchemaAt(n, f.path).value, f.offence, g.offence);
    }
  }

  lemma OffenceIsUnique(t: Any, a: Offence, b: Offence)
    requires Offends(t, a) && Offends(t, b)
    ensures a == b
  {
    ClassifyIff(t, a);
    ClassifyIff(t, b);
  }
}
