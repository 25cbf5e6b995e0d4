/** unbounded_tool_arg: a capped walk over nested argument schemas. */
module SchemaWalk {
  import opened Domain

  const RULE := "unbounded_tool_arg"
  const MAX_FINDINGS: nat := 5
  const LENGTH_THRESHOLD := 100000.0

  /** A position inside a node's schemas: the configuration key, then properties and item schemas. */
  datatype Step = Key(name: string) | Property(name: string) | Items

  type Path = seq<Step>

  datatype Offence = StringUnbounded | StringTooLong(maxLength: real) | ArrayUnbounded | NumberUnbounded(kind: string)

  datatype Field = Field(path: Path, offence: Offence)

  type FieldFinding = Finding<Field>

  type Schema = s: Any | s.Obj? witness Obj(map[])

  // ----- Classification of one schema

  function NumericKey(s: Schema, key: string): Option<real> {
    if key !in s.fields then None
    else
      match s.fields[key]
      case Float(r) => Some(r)
      case Int(i) => Some(i as real)
      case _ => None
  }

  function TypeName(s: Schema): string {
    if "type" in s.fields && s.fields["type"].Str? then s.fields["type"].s else ""
  }

  function Classify(s: Schema): Option<Offence> {
    match TypeName(s)
    case "string" =>
      (match NumericKey(s, "maxLength")
       case None => Some(StringUnbounded)
       case Some(v) => if v > LENGTH_THRESHOLD then Some(StringTooLong(v)) else None)
    case "array" => if NumericKey(s, "maxItems").None? then Some(ArrayUnbounded) else None
    case "number" => if NumericKey(s, "maximum").None? then Some(NumberUnbounded("number")) else None
    case "integer" => if NumericKey(s, "maximum").None? then Some(NumberUnbounded("integer")) else None
    case _ => None
  }

  function BuildFinding(node: string, f: Field): FieldFinding {
    match f.offence
    case StringUnbounded => NewFinding(RULE, Warning, node, f, 0.7)
    case StringTooLong(_) => NewFinding(RULE, Info, node, f, 0.5)
    case ArrayUnbounded => NewFinding(RULE, Warning, node, f, 0.7)
    case NumberUnbounded(_) => NewFinding(RULE, Info, node, f, 0.4)
  }

  // ----- Every offending position

  /** The schemas one level down. */
  function Properties(s: Schema): map<string, Any> {
    if "properties" in s.fields && s.fields["properties"].Obj? then s.fields["properties"].fields else map[]
  }

  predicate HasItems(s: Schema) {
    "items" in s.fields && s.fields["items"].Obj?
  }

  ghost function OffendingAt(s: Schema, path: Path): set<Field>
    decreases s, 1
  {
    Own(s, path) + OffendingBelow(s, path)
  }

  ghost function Own(s: Schema, path: Path): set<Field> {
    if Classify(s).Some? then {Field(path, Classify(s).value)} else {}
  }

  ghost function OffendingBelow(s: Schema, path: Path): set<Field>
    decreases s, 0
  {
    (set name, f | name in Properties(s) && Properties(s)[name].Obj?
                   && f in OffendingAt(Properties(s)[name], path + [Property(name)]) :: f)
    + (if HasItems(s) then OffendingAt(s.fields["items"], path + [Items]) else {})
  }

  /** The share of some of the properties. */
  ghost function OffendingIn(s: Schema, path: Path, names: set<string>): set<Field> {
    set name, f | name in names && name in Properties(s) && Properties(s)[name].Obj?
                  && f in OffendingAt(Properties(s)[name], path + [Property(name)]) :: f
  }

  ghost function OffendingItems(s: Schema, path: Path): set<Field> {
    if HasItems(s) then OffendingAt(s.fields["items"], path + [Items]) else {}
  }

  lemma {:induction false} PathsAreBelow(s: Schema, path: Path, f: Field)
    requires f in OffendingAt(s, path)
    ensures path <= f.path && (f in OffendingBelow(s, path) ==> path < f.path)
    decreases s
  {
    if f in OffendingBelow(s, path) {
      if f in OffendingItems(s, path) {
        PathsAreBelow(s.fields["items"], path + [Items], f);
      } else {
        var name :| name in Properties(s) && Properties(s)[name].Obj?
                    && f in OffendingAt(Properties(s)[name], path + [Property(name)]);
        PathsAreBelow(Properties(s)[name], path + [Property(name)], f);
      }
    }
  }

  lemma StartsWithStep(s: Schema, path: Path, a: Step)
    ensures forall f :: f in OffendingAt(s, path + [a]) ==> |path| < |f.path| && f.path[|path|] == a
  {
    forall f | f in OffendingAt(s, path + [a]) ensures |path| < |f.path| && f.path[|path|] == a {
      PathsAreBelow(s, path + [a], f);
      assert f.path[|path|] == (path + [a])[|path|];
    }
  }

  /** Fields of different subtrees are different. */
  lemma SubtreesAreDisjoint(s: Schema, t: Schema, path: Path, a: Step, b: Step)
    requires a != b
    ensures OffendingAt(s, path + [a]) !! OffendingAt(t, path + [b])
  {
    StartsWithStep(s, path, a);
    StartsWithStep(t, path, b);
  }

  lemma OwnIsNotBelow(s: Schema, path: Path)
    ensures Own(s, path) !! OffendingBelow(s, path)
  {
    forall f | f in OffendingBelow(s, path) ensures f !in Own(s, path) {
      PathsAreBelow(s, path, f);
    }
  }

  lemma PropertiesAreDisjoint(s: Schema, path: Path, names: set<string>, name: string)
    requires name !in names && name in Properties(s) && Properties(s)[name].Obj?
    ensures OffendingIn(s, path, names) !! OffendingAt(Properties(s)[name], path + [Property(name)])
  {
    forall other | other in names && other in Properties(s) && Properties(s)[other].Obj?
      ensures OffendingAt(Properties(s)[other], path + [Property(other)])
              !! OffendingAt(Properties(s)[name], path + [Property(name)])
    {
      SubtreesAreDisjoint(Properties(s)[other], Properties(s)[name], path, Property(other), Property(name));
    }
  }

  lemma ItemsAreDisjoint(s: Schema, path: Path, names: set<string>)
    ensures OffendingIn(s, path, names) !! OffendingItems(s, path)
  {
    if HasItems(s) {
      forall name | name in names && name in Properties(s) && Properties(s)[name].Obj?
        ensures OffendingAt(Properties(s)[name], path + [Property(name)]) !! OffendingItems(s, path)
      {
        SubtreesAreDisjoint(Properties(s)[name], s.fields["items"], path, Property(name), Items);
      }
    }
  }

  // ----- Collecting under the cap

  ghost function Fields(fs: seq<FieldFinding>): set<Field> {
    set f | f in fs :: f.Message
  }

  ghost predicate OncePerField(fs: seq<FieldFinding>) {
    forall i, j :: 0 <= i < j < |fs| ==> fs[i].Message != fs[j].Message
  }

  /** A list to which the fields in `todo` may still be added. */
  ghost predicate Open(node: string, fs: seq<FieldFinding>, todo: set<Field>) {
    && |fs| <= MAX_FINDINGS && OncePerField(fs) && Fields(fs) !! todo
    && forall f :: f in fs ==> f == BuildFinding(node, f.Message)
  }

  /** From fs0 to fs only fields of `todo` were added, once each, and all of them unless the cap was reached. */
  ghost predicate Collects(node: string, fs0: seq<FieldFinding>, fs: seq<FieldFinding>, todo: set<Field>) {
    && fs0 <= fs && Open(node, fs, {})
    && Fields(fs) <= Fields(fs0) + todo
    && (|fs| < MAX_FINDINGS ==> todo <= Fields(fs))
  }

  lemma StillOpen(node: string, fs0: seq<FieldFinding>, fs: seq<FieldFinding>, done: set<Field>, todo: set<Field>)
    requires Collects(node, fs0, fs, done) && Fields(fs0) !! todo && done !! todo
    ensures Open(node, fs, todo)
  {}

  lemma CollectsBoth(node: string, fs0: seq<FieldFinding>, fs1: seq<FieldFinding>, fs2: seq<FieldFinding>,
                     a: set<Field>, b: set<Field>)
    requires Collects(node, fs0, fs1, a) && Collects(node, fs1, fs2, b)
    ensures Collects(node, fs0, fs2, a + b)
  {
    FieldsGrow(fs1, fs2);
  }

  lemma FieldsGrow(fs: seq<FieldFinding>, gs: seq<FieldFinding>)
    requires fs <= gs
    ensures Fields(fs) <= Fields(gs)
  {
    forall x | x in Fields(fs) ensures x in Fields(gs) {
      var f :| f in fs && f.Message == x;
      assert f in gs;
    }
  }

  /** Once the cap is reached nothing more is owed. */
  lemma CapEndsCollection(node: string, fs0: seq<FieldFinding>, fs: seq<FieldFinding>, done: set<Field>,
                          todo: set<Field>)
    requires Collects(node, fs0, fs, done) && |fs| >= MAX_FINDINGS && done <= todo
    ensures Collects(node, fs0, fs, todo)
  {}

  method ClassifyField(node: string, path: Path, s: Schema, fs0: seq<FieldFinding>) returns (fs: seq<FieldFinding>)
    requires Open(node, fs0, Own(s, path))
    ensures Collects(node, fs0, fs, Own(s, path))
  {
    fs := fs0;
    if |fs0| >= MAX_FINDINGS {
      return;
    }
    match Classify(s)
    case None =>
    case Some(offence) =>
      var f := BuildFinding(node, Field(path, offence));
      assert forall x :: x in fs0 ==> x.Message in Fields(fs0);
      fs := fs0 + [f];
      assert f in fs;
      FieldsGrow(fs0, fs);
  }

  /** Leaf roots are classified; object roots and roots without a type only contribute what lies below. */
  method WalkSchemaRoot(node: string, path: Path, s: Schema, fs0: seq<FieldFinding>) returns (fs: seq<FieldFinding>)
    requires Open(node, fs0, OffendingAt(s, path))
    ensures Collects(node, fs0, fs, OffendingAt(s, path))
    decreases s, 1
  {
    fs := fs0;
    OwnIsNotBelow(s, path);
    if TypeName(s) != "" && TypeName(s) != "object" {
      fs := ClassifyField(node, path, s, fs);
      if |fs| >= MAX_FINDINGS {
        CapEndsCollection(node, fs0, fs, Own(s, path), OffendingAt(s, path));
        return;
      }
    }
    assert Collects(node, fs0, fs, Own(s, path));
    StillOpen(node, fs0, fs, Own(s, path), OffendingBelow(s, path));
    ghost var fs1 := fs;
    fs := WalkSchema(node, path, s, fs);
    CollectsBoth(node, fs0, fs1, fs, Own(s, path), OffendingBelow(s, path));
  }

  /** The properties, in map order, then the items. */
  method WalkSchema(node: string, path: Path, s: Schema, fs0: seq<FieldFinding>) returns (fs: seq<FieldFinding>)
    requires Open(node, fs0, OffendingBelow(s, path))
    ensures Collects(node, fs0, fs, OffendingBelow(s, path))
    decreases s, 0
  {
    assert OffendingBelow(s, path) == OffendingIn(s, path, Properties(s).Keys) + OffendingItems(s, path);
    fs := fs0;
    var props := Properties(s);
    var rest := props.Keys;
    assert OffendingIn(s, path, {}) == {};
    while rest != {}
      invariant rest <= props.Keys
      invariant Collects(node, fs0, fs, OffendingIn(s, path, props.Keys - rest))
      decreases rest
    {
      var name :| name in rest;
      ghost var done := props.Keys - rest;
      rest := rest - {name};
      assert props.Keys - rest == done + {name};
      if props[name].Obj? {
        ghost var fs1 := fs;
        fs := WalkProperty(node, path, s, name, fs0, fs, done);
        if |fs| >= MAX_FINDINGS {
          OneMoreProperty(s, path, done, name);
          CapEndsCollection(node, fs0, fs, OffendingIn(s, path, done + {name}), OffendingBelow(s, path));
          return;
        }
      } else {
        assert OffendingIn(s, path, done + {name}) == OffendingIn(s, path, done);
      }
    }
    assert props.Keys - rest == props.Keys;
    if HasItems(s) {
      ItemsAreDisjoint(s, path, props.Keys);
      StillOpen(node, fs0, fs, OffendingIn(s, path, props.Keys), OffendingItems(s, path));
      ghost var fs1 := fs;
      fs := WalkSchemaRoot(node, path + [Items], s.fields["items"], fs);
      CollectsBoth(node, fs0, fs1, fs, OffendingIn(s, path, props.Keys), OffendingItems(s, path));
    }
  }

  lemma OneMoreProperty(s: Schema, path: Path, done: set<string>, name: string)
    requires name in Properties(s) && Properties(s)[name].Obj?
    ensures OffendingIn(s, path, done + {name})
         == OffendingIn(s, path, done) + OffendingAt(Properties(s)[name], path + [Property(name)])
  {}

  /** One property: its own classification, then what lies below it. */
  method WalkProperty(node: string, path: Path, s: Schema, name: string, ghost start: seq<FieldFinding>,
                      fs0: seq<FieldFinding>, ghost done: set<string>)
    returns (fs: seq<FieldFinding>)
    requires name in Properties(s) && Properties(s)[name].Obj? && name !in done
    requires Open(node, start, OffendingBelow(s, path)) && Collects(node, start, fs0, OffendingIn(s, path, done))
    ensures Collects(node, start, fs, OffendingIn(s, path, done + {name}))
    decreases Properties(s)[name], 2
  {
    var field := Properties(s)[name];
    var fieldPath := path + [Property(name)];
    ghost var before, own, below := OffendingIn(s, path, done), Own(field, fieldPath), OffendingBelow(field, fieldPath);
    OneMoreProperty(s, path, done, name);
    assert before <= OffendingBelow(s, path) && own + below <= OffendingBelow(s, path);
    PropertiesAreDisjoint(s, path, done, name);
    OwnIsNotBelow(field, fieldPath);
    StillOpen(node, start, fs0, before, own);
    fs := ClassifyField(node, fieldPath, field, fs0);
    CollectsBoth(node, start, fs0, fs, before, own);
    if |fs| >= MAX_FINDINGS {
      CapEndsCollection(node, start, fs, before + own, OffendingIn(s, path, done + {name}));
      return;
    }
    ghost var fs1 := fs;
    StillOpen(node, start, fs, before + own, below);
    fs := WalkSchema(node, fieldPath, field, fs);
    CollectsBoth(node, start, fs1, fs, before + own, below);
    assert before + own + below == OffendingIn(s, path, done + {name});
  }

  // ----- The rule

  const SCHEMA_KEYS := ["args_schema", "parameters", "input_schema"]

  ghost function OffendingUnder(n: Node, key: string): set<Field> {
    if key in n.Config && n.Config[key].Obj? then OffendingAt(n.Config[key], [Key(key)]) else {}
  }

  /** All offending positions under the first k schema keys. */
  ghost function Offending(n: Node, k: nat): set<Field>
    requires k <= |SCHEMA_KEYS|
  {
    if k == 0 then {} else Offending(n, k - 1) + OffendingUnder(n, SCHEMA_KEYS[k - 1])
  }

  lemma {:induction false} KeysAreDisjoint(n: Node, k: nat, m: nat)
    requires k <= m < |SCHEMA_KEYS|
    ensures Offending(n, k) !! OffendingUnder(n, SCHEMA_KEYS[m])
  {
    if k > 0 {
      KeysAreDisjoint(n, k - 1, m);
      var a, b := SCHEMA_KEYS[k - 1], SCHEMA_KEYS[m];
      assert a != b;
      assert [] + [Key(a)] == [Key(a)] && [] + [Key(b)] == [Key(b)];
      if a in n.Config && n.Config[a].Obj? && b in n.Config && n.Config[b].Obj? {
        SubtreesAreDisjoint(n.Config[a], n.Config[b], [], Key(a), Key(b));
      }
    }
  }

  lemma {:induction false} CountFields(fs: seq<FieldFinding>)
    requires OncePerField(fs)
    ensures |Fields(fs)| == |fs|
  {
    if fs != [] {
      var init := fs[..|fs| - 1];
      CountFields(init);
      var last := fs[|fs| - 1].Message;
      assert Fields(fs) == Fields(init) + {last} by {
        assert fs[|fs| - 1] in fs;
        forall f | f in fs ensures f in init || f == fs[|fs| - 1] {}
        FieldsGrow(init, fs);
      }
      assert last !in Fields(init);
    }
  }

  /** One schema key of the node. */
  method EvaluateKey(n: Node, k: nat, fs0: seq<FieldFinding>) returns (fs: seq<FieldFinding>)
    requires k < |SCHEMA_KEYS| && Collects(n.ID, [], fs0, Offending(n, k))
    ensures Collects(n.ID, [], fs, Offending(n, k + 1)) && fs0 <= fs
  {
    fs := fs0;
    var key := SCHEMA_KEYS[k];
    if key in n.Config && n.Config[key].Obj? {
      KeysAreDisjoint(n, k, k);
      StillOpen(n.ID, [], fs0, Offending(n, k), OffendingUnder(n, key));
      fs := WalkSchemaRoot(n.ID, [Key(key)], n.Config[key], fs0);
      CollectsBoth(n.ID, [], fs0, fs, Offending(n, k), OffendingUnder(n, key));
    }
  }

  ghost function AllOffending(n: Node): set<Field> {
    Offending(n, |SCHEMA_KEYS|)
  }

  lemma {:induction false} OffendingGrows(n: Node, k: nat, m: nat)
    requires k <= m <= |SCHEMA_KEYS|
    ensures Offending(n, k) <= Offending(n, m)
  {
    if k < m {
      OffendingGrows(n, k, m - 1);
    }
  }

  lemma Counted(n: Node, fs: seq<FieldFinding>, all: set<Field>)
    requires Open(n.ID, fs, {}) && Fields(fs) <= all && (|fs| < MAX_FINDINGS ==> all <= Fields(fs))
    ensures |fs| == if |all| < MAX_FINDINGS then |all| else MAX_FINDINGS
    ensures forall f :: f in fs ==> f.Message in all
  {
    CountFields(fs);
    assert all == Fields(fs) + (all - Fields(fs));
    if |fs| < MAX_FINDINGS {
      assert Fields(fs) == all;
    }
    assert forall f :: f in fs ==> f.Message in Fields(fs);
  }

  /** The schema one step down. */
  ghost function Child(s: Schema, step: Step): (r: Option<Any>)
    ensures r.Some? ==> r.value.Obj? && r.value < s
  {
    match step
    case Property(name) => if name in Properties(s) && Properties(s)[name].Obj? then Some(Properties(s)[name]) else None
    case Items => if HasItems(s) then Some(s.fields["items"]) else None
    case Key(_) => None
  }

  lemma BelowIsInAChild(s: Schema, path: Path, f: Field)
    requires f in OffendingBelow(s, path)
    ensures path < f.path && Child(s, f.path[|path|]).Some?
    ensures f in OffendingAt(Child(s, f.path[|path|]).value, path + [f.path[|path|]])
  {
    var step: Step;
    if f in OffendingItems(s, path) {
      step := Items;
    } else {
      var name :| name in Properties(s) && Properties(s)[name].Obj?
                    && f in OffendingAt(Properties(s)[name], path + [Property(name)]);
      step := Property(name);
    }
    PathsAreBelow(Child(s, step).value, path + [step], f);
    assert f.path[|path|] == (path + [step])[|path|];
  }

  /** No position is offending in two ways, so counting fields counts positions. */
  lemma {:induction false} OneOffencePerPosition(s: Schema, path: Path, f: Field, g: Field)
    requires f in OffendingAt(s, path) && g in OffendingAt(s, path) && f.path == g.path
    ensures f == g
    decreases s
  {
    PathsAreBelow(s, path, f);
    PathsAreBelow(s, path, g);
    if f in OffendingBelow(s, path) && g in OffendingBelow(s, path) {
      BelowIsInAChild(s, path, f);
      BelowIsInAChild(s, path, g);
      var step := f.path[|path|];
      OneOffencePerPosition(Child(s, step).value, path + [step], f, g);
    }
  }
}
