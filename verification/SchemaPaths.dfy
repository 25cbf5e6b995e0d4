/** unbounded_tool_arg: positions are shown as dotted text, which need not tell them apart. */
module SchemaPaths {
  import opened Domain
  import opened SchemaWalk
  import Baseline

  // ----- Joining and splitting at dots

  predicate DotFree(s: string) {
    '.' !in s
  }

  function Split(s: string): (ws: seq<string>)
    ensures ws != []
  {
    if s == "" then [""]
    else
      var rest := Split(s[1..]);
      if s[0] == '.' then [""] + rest else [[s[0]] + rest[0]] + rest[1..]
  }

  function Join(ws: seq<string>): string
    requires ws != []
  {
    if |ws| == 1 then ws[0] else ws[0] + "." + Join(ws[1..])
  }

  lemma {:induction false} SplitIsDotFree(s: string)
    ensures forall w :: w in Split(s) ==> DotFree(w)
  {
    if s != "" {
      SplitIsDotFree(s[1..]);
      var rest := Split(s[1..]);
      forall w | w in Split(s) ensures DotFree(w) {
        assert rest[0] in rest && (w == "" || w in rest || w == [s[0]] + rest[0]);
      }
    }
  }

  lemma {:induction false} JoinSplit(s: string)
    ensures Join(Split(s)) == s
  {
    if s != "" {
      JoinSplit(s[1..]);
      var rest := Split(s[1..]);
      if s[0] == '.' {
        assert Split(s)[1..] == rest;
      } else {
        JoinPrepend(s[0], rest);
      }
    }
  }

  lemma JoinPrepend(c: char, ws: seq<string>)
    requires ws != []
    ensures Join([[c] + ws[0]] + ws[1..]) == [c] + Join(ws)
  {
    var longer := [[c] + ws[0]] + ws[1..];
    assert longer[1..] == ws[1..];
    if |ws| == 1 {
      assert longer == [[c] + ws[0]];
    }
  }

  lemma {:induction false} SplitJoin(ws: seq<string>)
    requires ws != [] && forall w :: w in ws ==> DotFree(w)
    ensures Split(Join(ws)) == ws
    decreases |ws|, |ws[0]|
  {
    if ws[0] != "" {
      var shorter := [ws[0][1..]] + ws[1..];
      assert ws[0] in ws && forall w :: w in shorter ==> w == ws[0][1..] || w in ws;
      SplitJoin(shorter);
      JoinPrepend(ws[0][0], shorter);
      assert [ws[0][0]] + shorter[0] == ws[0] && shorter[1..] == ws[1..] && ws == [ws[0]] + ws[1..];
      assert Join(ws)[0] == ws[0][0] && Join(ws)[1..] == Join(shorter);
    } else if |ws| > 1 {
      SplitJoin(ws[1..]);
      assert Join(ws)[1..] == Join(ws[1..]);
    }
  }

  lemma {:induction false} JoinConcat(a: seq<string>, b: seq<string>)
    requires a != [] && b != []
    ensures Join(a + b) == Join(a) + "." + Join(b)
  {
    if |a| == 1 {
      assert (a + b)[1..] == b;
    } else {
      JoinConcat(a[1..], b);
      assert (a + b)[1..] == a[1..] + b;
    }
  }

  // ----- The text of a position

  function StepText(step: Step): string {
    match step
    case Key(name) => name
    case Property(name) => name
    case Items => "items"
  }

  /** The text built up along the walk: the schema key, then a dot and a name for each step. */
  function Render(path: Path): string {
    if path == [] then ""
    else
      var n := |path| - 1;
      if n == 0 then StepText(path[0]) else Render(path[..n]) + "." + StepText(path[n])
  }

  /** The names on the way, taken apart at their own dots. */
  function Words(path: Path): seq<string> {
    if path == [] then [] else Words(path[..|path| - 1]) + Split(StepText(path[|path| - 1]))
  }

  lemma {:induction false} WordsSpellRender(path: Path)
    requires path != []
    ensures Words(path) != [] && Join(Words(path)) == Render(path) && forall w :: w in Words(path) ==> DotFree(w)
  {
    var n := |path| - 1;
    SplitIsDotFree(StepText(path[n]));
    JoinSplit(StepText(path[n]));
    if n > 0 {
      WordsSpellRender(path[..n]);
      JoinConcat(Words(path[..n]), Split(StepText(path[n])));
    } else {
      assert path[..0] == [] && Words(path) == Split(StepText(path[0]));
    }
  }

  /** Two positions are shown alike exactly when their names, taken apart at dots, are the same. */
  lemma SameTextIff(p: Path, q: Path)
    requires p != [] && q != []
    ensures Render(p) == Render(q) <==> Words(p) == Words(q)
  {
    WordsSpellRender(p);
    WordsSpellRender(q);
    SplitJoin(Words(p));
    SplitJoin(Words(q));
  }

  // ----- When the positions of a schema are told apart

  /** No property name holds a dot, and none is called "items" beside an item schema. */
  ghost predicate Unambiguous(s: Schema) {
    && (forall name :: name in Properties(s) && Properties(s)[name].Obj? ==>
          DotFree(name) && Unambiguous(Properties(s)[name]) && !(name == "items" && HasItems(s)))
    && (HasItems(s) ==> Unambiguous(s.fields["items"]))
  }

  lemma {:induction false} DotFreeIsOneWord(s: string)
    requires DotFree(s)
    ensures Split(s) == [s]
  {
    if s != "" {
      assert s[0] in s;
      DotFreeIsOneWord(s[1..]);
      assert [s[0]] + s[1..] == s && [s[1..]][1..] == [];
    }
  }

  lemma WordsSnoc(path: Path, step: Step)
    ensures Words(path + [step]) == Words(path) + Split(StepText(step))
  {
    assert (path + [step])[..|path|] == path;
  }

  lemma {:induction false} WordsPrefix(path: Path, longer: Path)
    requires path <= longer
    ensures Words(path) <= Words(longer) && (path < longer ==> |Words(path)| < |Words(longer)|)
    decreases |longer|
  {
    if path < longer {
      WordsPrefix(path, longer[..|longer| - 1]);
    } else {
      assert path == longer;
    }
  }

  /** The step below an unambiguous schema can be read off the words. */
  lemma StepFromWords(s: Schema, path: Path, f: Field)
    requires f in OffendingBelow(s, path) && Unambiguous(s)
    ensures path < f.path && DotFree(StepText(f.path[|path|]))
    ensures Words(path) < Words(f.path) && Words(f.path)[|Words(path)|] == StepText(f.path[|path|])
  {
    BelowIsInAChild(s, path, f);
    var step := f.path[|path|];
    DotFreeIsOneWord(StepText(step));
    WordsSnoc(path, step);
    PathsAreBelow(Child(s, step).value, path + [step], f);
    WordsPrefix(path + [step], f.path);
    assert Words(path + [step])[|Words(path)|] == StepText(step);
  }

  /** In an unambiguous schema offences at different positions are shown differently. */
  lemma {:induction false} PositionsAreToldApart(s: Schema, path: Path, f: Field, g: Field)
    requires Unambiguous(s) && f in OffendingAt(s, path) && g in OffendingAt(s, path) && Words(f.path) == Words(g.path)
    ensures f == g
    decreases s
  {
    if f in OffendingBelow(s, path) && g in OffendingBelow(s, path) {
      StepFromWords(s, path, f);
      StepFromWords(s, path, g);
      BelowIsInAChild(s, path, f);
      BelowIsInAChild(s, path, g);
      var step := f.path[|path|];
      assert step == g.path[|path|];
      PositionsAreToldApart(Child(s, step).value, path + [step], f, g);
    } else {
      PathsAreBelow(s, path, f);
      PathsAreBelow(s, path, g);
      WordsPrefix(path, f.path);
      WordsPrefix(path, g.path);
    }
  }

  ghost predicate AllUnambiguous(n: Node) {
    forall key :: key in SCHEMA_KEYS && key in n.Config && n.Config[key].Obj? ==> Unambiguous(n.Config[key])
  }

  ghost predicate Under(n: Node, key: string, f: Field) {
    key in SCHEMA_KEYS && f in OffendingUnder(n, key)
  }

  lemma {:induction false} OffendingIsUnderAKey(n: Node, k: nat, f: Field)
    requires k <= |SCHEMA_KEYS| && f in Offending(n, k)
    ensures exists key :: Under(n, key, f)
  {
    if f in OffendingUnder(n, SCHEMA_KEYS[k - 1]) {
      assert Under(n, SCHEMA_KEYS[k - 1], f);
    } else {
      OffendingIsUnderAKey(n, k - 1, f);
    }
  }

  lemma KeyIsFirstWord(n: Node, key: string, f: Field)
    requires Under(n, key, f)
    ensures f.path != [] && Words(f.path) != [] && Words(f.path)[0] == key
  {
    PathsAreBelow(n.Config[key], [Key(key)], f);
    DotFreeIsOneWord(key);
    assert [] + [Key(key)] == [Key(key)];
    WordsSnoc([], Key(key));
    WordsPrefix([Key(key)], f.path);
  }

  /** Where no schema of the node is ambiguous, no two of its offences are shown at the same place. */
  lemma FindingsAreToldApart(n: Node, f: Field, g: Field)
    requires AllUnambiguous(n) && f in AllOffending(n) && g in AllOffending(n) && Render(f.path) == Render(g.path)
    ensures f == g
  {
    OffendingIsUnderAKey(n, |SCHEMA_KEYS|, f);
    OffendingIsUnderAKey(n, |SCHEMA_KEYS|, g);
    var a :| Under(n, a, f);
    var b :| Under(n, b, g);
    KeyIsFirstWord(n, a, f);
    KeyIsFirstWord(n, b, g);
    SameTextIff(f.path, g.path);
    PositionsAreToldApart(n.Config[a], [Key(a)], f, g);
  }

  // ----- The text of a finding

  /** How a message is worded: it shows the position as text, and the offence. */
  type Wording = (string, Offence) -> string

  function Worded(wording: Wording, f: FieldFinding): Baseline.TextFinding {
    Finding(f.RuleName, f.Severity, f.NodeID, wording(Render(f.Message.path), f.Message.offence), f.Confidence,
            f.MessageTemplateID, f.SourceFile)
  }

  const STRING := Obj(map["type" := Str("string")])

  /** A property called "a.b" beside a property a with a property b. */
  const INSIDE := Obj(map["properties" := Obj(map["b" := STRING])])
  const DOTTED := Obj(map["properties" := Obj(map["a.b" := STRING, "a" := INSIDE])])

  function DottedNode(): Node {
    PlainNode("n").(Type := Tool, Config := map["parameters" := DOTTED])
  }

  const OUTER := Field([Key("parameters"), Property("a.b")], StringUnbounded)
  const INNER := Field([Key("parameters"), Property("a"), Property("b")], StringUnbounded)

  lemma OffendsBelow(s: Schema, path: Path, name: string, f: Field)
    requires name in Properties(s) && Properties(s)[name].Obj?
    requires f in OffendingAt(Properties(s)[name], path + [Property(name)])
    ensures f in OffendingAt(s, path)
  {
    assert f in OffendingBelow(s, path);
  }

  lemma DottedOffences()
    ensures OUTER in AllOffending(DottedNode()) && INNER in AllOffending(DottedNode())
  {
    var path := [Key("parameters")];
    assert path + [Property("a.b")] == OUTER.path && path + [Property("a")] + [Property("b")] == INNER.path;
    assert Classify(STRING) == Some(StringUnbounded);
    OffendsBelow(DOTTED, path, "a.b", OUTER);
    OffendsBelow(Properties(DOTTED)["a"], path + [Property("a")], "b", INNER);
    OffendsBelow(DOTTED, path, "a", INNER);
    DottedKey();
  }

  lemma DottedKey()
    ensures OffendingAt(DOTTED, [Key("parameters")]) <= AllOffending(DottedNode())
  {
    var n := DottedNode();
    assert SCHEMA_KEYS[1] == "parameters" && n.Config["parameters"] == DOTTED;
    assert OffendingUnder(n, SCHEMA_KEYS[1]) <= Offending(n, 2) <= Offending(n, 3);
  }

  /** Its two offences are worded alike, so a baseline that knows one hides the other. */
  lemma DottedNamesShareAFingerprint(wording: Wording, hash: Baseline.Hash)
    ensures OUTER in AllOffending(DottedNode()) && INNER in AllOffending(DottedNode()) && OUTER != INNER
    ensures var known, other := Worded(wording, BuildFinding("n", OUTER)), Worded(wording, BuildFinding("n", INNER));
            Baseline.NewOnes(hash, [other], [Baseline.Fingerprint(hash, known)]) == []
  {
    DottedOffences();
    var p, q := OUTER.path, INNER.path;
    assert p[..1] == [Key("parameters")] && q[..2] == [Key("parameters"), Property("a")];
    assert q[..2][..1] == [Key("parameters")];
    assert Render(p) == "parameters.a.b" && Render(q) == "parameters.a.b";
    var other := Worded(wording, BuildFinding("n", INNER));
    assert [other][..0] == [];
  }
}
