/** The concurrent orchestrator: rules run in goroutines, and one stable sort orders what they found. */
module Orchestrator {
  import opened Domain
  import opened Ordering
  import opened Selection

  // ----- The canonical order of findings

  /** Severity and confidence descending, then rule, file and node ascending. */
  predicate FindingLess<M>(a: Finding<M>, b: Finding<M>) {
    if a.Severity != b.Severity then a.Severity.Rank() > b.Severity.Rank()
    else if a.Confidence != b.Confidence then a.Confidence > b.Confidence
    else if a.RuleName != b.RuleName then StrLess(a.RuleName, b.RuleName)
    else if a.SourceFile != b.SourceFile then StrLess(a.SourceFile, b.SourceFile)
    else StrLess(a.NodeID, b.NodeID)
  }

  predicate FindingLe<M>(a: Finding<M>, b: Finding<M>) {
    !FindingLess(b, a)
  }

  lemma FindingLeTransitive<M>(a: Finding<M>, b: Finding<M>, c: Finding<M>)
    requires FindingLe(a, b) && FindingLe(b, c)
    ensures FindingLe(a, c)
  {
    StrLeAll(a.RuleName, b.RuleName, c.RuleName);
    StrLeAll(a.SourceFile, b.SourceFile, c.SourceFile);
    StrLeAll(a.NodeID, b.NodeID, c.NodeID);
  }

  lemma StrLeAll(a: string, b: string, c: string)
    ensures StrLe(a, b) && StrLe(b, c) ==> StrLe(a, c)
    ensures StrLe(a, b) && StrLe(b, a) ==> a == b
    ensures StrLe(b, c) && StrLe(c, b) ==> b == c
    ensures StrLe(a, c) && StrLe(c, a) ==> a == c
    ensures (StrLe(a, b) || StrLe(b, a)) && (StrLe(b, c) || StrLe(c, b)) && (StrLe(a, c) || StrLe(c, a))
  {
    StrLeTotal(a, b);
    StrLeTotal(b, c);
    StrLeTotal(a, c);
    if StrLe(a, b) && StrLe(b, c) { StrLeTransitive(a, b, c); }
    if StrLe(a, b) && StrLe(b, a) { StrLeAntisymmetric(a, b); }
    if StrLe(b, c) && StrLe(c, b) { StrLeAntisymmetric(b, c); }
    if StrLe(a, c) && StrLe(c, a) { StrLeAntisymmetric(a, c); }
  }

  lemma FindingLeIsTotalPreorder<M(!new)>()
    ensures TotalPreorder(FindingLe<M>)
  {
    forall a: Finding<M>, b: Finding<M> ensures FindingLe(a, b) || FindingLe(b, a) {
      StrLeAll(a.RuleName, b.RuleName, b.RuleName);
      StrLeAll(a.SourceFile, b.SourceFile, b.SourceFile);
      StrLeAll(a.NodeID, b.NodeID, b.NodeID);
    }
    forall a: Finding<M>, b: Finding<M>, c: Finding<M> | FindingLe(a, b) && FindingLe(b, c) ensures FindingLe(a, c) {
      FindingLeTransitive(a, b, c);
    }
  }

  lemma TiesShareTheRule<M>(a: Finding<M>, b: Finding<M>)
    requires FindingLe(a, b) && FindingLe(b, a)
    ensures a.Severity == b.Severity && a.Confidence == b.Confidence && a.RuleName == b.RuleName
    ensures a.SourceFile == b.SourceFile && a.NodeID == b.NodeID
  {
    StrLeAll(a.RuleName, b.RuleName, b.RuleName);
    StrLeAll(a.SourceFile, b.SourceFile, b.SourceFile);
    StrLeAll(a.NodeID, b.NodeID, b.NodeID);
  }

  /** Both carry the same severity, confidence, rule, file and node. */
  predicate Ties<M>(a: Finding<M>, b: Finding<M>) {
    && a.Severity == b.Severity && a.Confidence == b.Confidence && a.RuleName == b.RuleName
    && a.SourceFile == b.SourceFile && a.NodeID == b.NodeID
  }

  /** a may stand before b in a report: severe and confident ones first, then by rule, file and node. */
  ghost predicate MayPrecede<M>(a: Finding<M>, b: Finding<M>) {
    && (a.Severity == Info ==> b.Severity == Info) && (a.Severity == Warning ==> b.Severity != Critical)
    && (a.Severity == b.Severity ==> a.Confidence >= b.Confidence)
    && (a.Severity == b.Severity && a.Confidence == b.Confidence ==> Alphabetical(a.RuleName, b.RuleName))
    && (a.Severity == b.Severity && a.Confidence == b.Confidence && a.RuleName == b.RuleName ==>
          Alphabetical(a.SourceFile, b.SourceFile))
    && (Ties(a.(NodeID := b.NodeID), b) ==> Alphabetical(a.NodeID, b.NodeID))
  }

  ghost predicate InReportOrder<M>(r: seq<Finding<M>>) {
    forall i, j :: 0 <= i < j < |r| ==> MayPrecede(r[i], r[j])
  }

  lemma FindingLeIsMayPrecede<M>(a: Finding<M>, b: Finding<M>)
    ensures FindingLe(a, b) <==> MayPrecede(a, b)
  {
    StrLeIsAlphabetical(a.RuleName, b.RuleName);
    StrLeIsAlphabetical(a.SourceFile, b.SourceFile);
    StrLeIsAlphabetical(a.NodeID, b.NodeID);
    StrLeAll(a.RuleName, b.RuleName, b.RuleName);
    StrLeAll(a.SourceFile, b.SourceFile, b.SourceFile);
    StrLeAll(a.NodeID, b.NodeID, b.NodeID);
  }

  lemma TiesIff<M>(a: Finding<M>, b: Finding<M>)
    ensures Ties(a, b) <==> FindingLe(a, b) && FindingLe(b, a)
  {
    if FindingLe(a, b) && FindingLe(b, a) {
      TiesShareTheRule(a, b);
    }
    StrLeAll(a.NodeID, a.NodeID, a.NodeID);
  }

  function TiesWith<M>(k: Finding<M>): Finding<M> -> bool {
    (f: Finding<M>) => Ties(k, f)
  }

  /** The two lists hold the findings that tie with k in the same order. */
  ghost predicate SameTiesWith<M(!new)>(k: Finding<M>, a: seq<Finding<M>>, b: seq<Finding<M>>) {
    exists t :: Selects(a, TiesWith(k), t) && Selects(b, TiesWith(k), t)
  }

  /** r is s in report order; findings that tie stay in order. */
  ghost predicate Arranges<M(!new)>(s: seq<Finding<M>>, r: seq<Finding<M>>) {
    multiset(r) == multiset(s) && InReportOrder(r) && forall k :: SameTiesWith(k, s, r)
  }

  lemma {:induction false} ClassSelects<M(!new)>(k: Finding<M>, s: seq<Finding<M>>)
    ensures Selects(s, TiesWith(k), Class(FindingLe<M>, k, s))
  {
    if s == [] {
      SelectsNothing(TiesWith(k));
    } else {
      var n := |s| - 1;
      ClassSelects(k, s[..n]);
      ClassSnoc(k, s[..n], s[n]);
      assert s == s[..n] + [s[n]];
      SelectsNext(s, n, TiesWith(k), Class(FindingLe<M>, k, s[..n]), Class(FindingLe<M>, k, s));
      SelectsAll(s, TiesWith(k), Class(FindingLe<M>, k, s));
    }
  }

  lemma ClassSnoc<M>(k: Finding<M>, s: seq<Finding<M>>, x: Finding<M>)
    ensures Class(FindingLe<M>, k, s + [x]) ==
              if Ties(k, x) then Class(FindingLe<M>, k, s) + [x] else Class(FindingLe<M>, k, s)
  {
    ClassConcat(FindingLe<M>, k, s, [x]);
    TiesIff(k, x);
    assert [x][1..] == [];
  }

  lemma SortedArranges<M(!new)>(s: seq<Finding<M>>)
    ensures Arranges(s, Sorted(FindingLe<M>, s))
  {
    var r := Sorted(FindingLe<M>, s);
    FindingLeIsTotalPreorder<M>();
    SortedIsSorted(FindingLe<M>, s);
    SortedMultiset(FindingLe<M>, s);
    forall i, j | 0 <= i < j < |r| ensures MayPrecede(r[i], r[j]) {
      FindingLeIsMayPrecede(r[i], r[j]);
    }
    forall k ensures SameTiesWith(k, s, r) {
      SortedStable(FindingLe<M>, k, s);
      ClassSelects(k, s);
      ClassSelects(k, r);
    }
  }

  // ----- Rules and their tiers

  /** The interfaces a rule implements, and its message-template ID ("" for none). */
  datatype Rule = Rule(name: string, isGlobal: bool, isPath: bool, isLocal: bool, templateID: string)

  datatype Tier = GlobalTier | PathTier | LocalTier | LegacyTier

  /** The highest-priority interface decides. */
  function TierOf(r: Rule): Tier {
    if r.isGlobal then GlobalTier else if r.isPath then PathTier else if r.isLocal then LocalTier else LegacyTier
  }

  predicate IsGlobal(r: Rule) {
    r.isGlobal
  }

  predicate IsPath(r: Rule) {
    r.isPath && !r.isGlobal
  }

  predicate IsLocal(r: Rule) {
    r.isLocal && !r.isPath && !r.isGlobal
  }

  predicate IsLegacy(r: Rule) {
    !r.isLocal && !r.isPath && !r.isGlobal
  }

  function InTier(rules: seq<Rule>, t: Tier): seq<Rule> {
    if rules == [] then []
    else
      var last := |rules| - 1;
      InTier(rules[..last], t) + if TierOf(rules[last]) == t then [rules[last]] else []
  }

  lemma {:induction false} TierSelects(rules: seq<Rule>, t: Tier, member: Rule -> bool)
    requires forall r :: member(r) <==> TierOf(r) == t
    ensures Selects(rules, member, InTier(rules, t))
  {
    if rules == [] {
      SelectsNothing(member);
    } else {
      var n := |rules| - 1;
      TierSelects(rules[..n], t, member);
      SelectsNext(rules, n, member, InTier(rules[..n], t), InTier(rules, t));
      SelectsAll(rules, member, InTier(rules, t));
    }
  }

  method Classify(rules: seq<Rule>) returns (locals: seq<Rule>, paths: seq<Rule>, globals: seq<Rule>, legacy: seq<Rule>)
    ensures locals == InTier(rules, LocalTier) && paths == InTier(rules, PathTier)
    ensures globals == InTier(rules, GlobalTier) && legacy == InTier(rules, LegacyTier)
    ensures Selects(rules, IsGlobal, globals)
    ensures Selects(rules, IsPath, paths)
    ensures Selects(rules, IsLocal, locals)
    ensures Selects(rules, IsLegacy, legacy)
  {
    locals, paths, globals, legacy := [], [], [], [];
    for i := 0 to |rules|
      invariant locals == InTier(rules[..i], LocalTier) && paths == InTier(rules[..i], PathTier)
      invariant globals == InTier(rules[..i], GlobalTier) && legacy == InTier(rules[..i], LegacyTier)
    {
      assert rules[..i + 1][..i] == rules[..i];
      match TierOf(rules[i])
      case GlobalTier => globals := globals + [rules[i]];
      case PathTier => paths := paths + [rules[i]];
      case LocalTier => locals := locals + [rules[i]];
      case LegacyTier => legacy := legacy + [rules[i]];
    }
    assert rules[..|rules|] == rules;
    TierSelects(rules, GlobalTier, IsGlobal);
    TierSelects(rules, PathTier, IsPath);
    TierSelects(rules, LocalTier, IsLocal);
    TierSelects(rules, LegacyTier, IsLegacy);
  }

  /** A tier holds its own rules as often as they were given, and no others. */
  lemma {:induction false} TierHoldsItsOwn(rules: seq<Rule>, t: Tier, r: Rule)
    ensures multiset(InTier(rules, t))[r] == if TierOf(r) == t then multiset(rules)[r] else 0
  {
    if rules != [] {
      var last := |rules| - 1;
      TierHoldsItsOwn(rules[..last], t, r);
      assert rules == rules[..last] + [rules[last]];
      assert multiset(rules) == multiset(rules[..last]) + multiset{rules[last]};
    }
  }

  /** Each rule is dispatched through exactly one tier. */
  lemma TiersPartitionTheRules(rules: seq<Rule>, r: Rule)
    ensures multiset(rules)[r] == multiset(InTier(rules, GlobalTier))[r] + multiset(InTier(rules, PathTier))[r]
                                + multiset(InTier(rules, LocalTier))[r] + multiset(InTier(rules, LegacyTier))[r]
  {
    TierHoldsItsOwn(rules, GlobalTier, r);
    TierHoldsItsOwn(rules, PathTier, r);
    TierHoldsItsOwn(rules, LocalTier, r);
    TierHoldsItsOwn(rules, LegacyTier, r);
  }

  // ----- The goroutines as a step system

  /**
   * A fan-out walker: rules still running, batches in the channel, batches gathered, and whether they were handed over.
   */
  datatype Walker = Walker(running: multiset<Rule>, channel: seq<Rule>, gathered: seq<Rule>, delivered: bool)

  /** A batch is named by the rule it came from. */
  datatype State = State(global: Walker, path: Walker, locals: seq<Rule>, localDelivered: bool,
                         legacy: multiset<Rule>, legacyChannel: seq<Rule>, combined: seq<Rule>)

  function Started(rules: seq<Rule>): Walker {
    Walker(multiset(rules), [], [], rules == [])
  }

  ghost function Initial(rules: seq<Rule>): State {
    var locals := InTier(rules, LocalTier);
    State(Started(InTier(rules, GlobalTier)), Started(InTier(rules, PathTier)), locals, locals == [],
          multiset(InTier(rules, LegacyTier)), [], [])
  }

  datatype Step =
    | GlobalSends(r: Rule) | GlobalReceives | GlobalDelivers
    | PathSends(r: Rule) | PathReceives | PathDelivers
    | LocalDelivers
    | LegacySends(r: Rule) | LegacyReceives

  ghost predicate Sends(w: Walker, r: Rule, w': Walker) {
    r in w.running && w' == w.(running := w.running - multiset{r}, channel := w.channel + [r])
  }

  ghost predicate Receives(w: Walker, w': Walker) {
    w.channel != [] && w' == w.(channel := w.channel[1..], gathered := w.gathered + [w.channel[0]])
  }

  /** The channel is closed once every goroutine has sent; the collector then hands the batches over under the mutex. */
  ghost predicate Delivers(w: Walker, w': Walker) {
    !w.delivered && w.running == multiset{} && w.channel == [] && w' == w.(gathered := [], delivered := true)
  }

  ghost predicate Next(s: State, step: Step, t: State) {
    match step
    case GlobalSends(r) => Sends(s.global, r, t.global) && t == s.(global := t.global)
    case GlobalReceives => Receives(s.global, t.global) && t == s.(global := t.global)
    case GlobalDelivers =>
      Delivers(s.global, t.global) && t == s.(global := t.global, combined := s.combined + s.global.gathered)
    case PathSends(r) => Sends(s.path, r, t.path) && t == s.(path := t.path)
    case PathReceives => Receives(s.path, t.path) && t == s.(path := t.path)
    case PathDelivers => Delivers(s.path, t.path) && t == s.(path := t.path, combined := s.combined + s.path.gathered)
    case LocalDelivers =>
      !s.localDelivered && t == s.(locals := [], localDelivered := true, combined := s.combined + s.locals)
    case LegacySends(r) =>
      r in s.legacy && t == s.(legacy := s.legacy - multiset{r}, legacyChannel := s.legacyChannel + [r])
    case LegacyReceives =>
      s.legacyChannel != []
      && t == s.(legacyChannel := s.legacyChannel[1..], combined := s.combined + [s.legacyChannel[0]])
  }

  ghost predicate Finished(s: State) {
    s.global.delivered && s.path.delivered && s.localDelivered && s.legacy == multiset{} && s.legacyChannel == []
  }

  ghost predicate Steps(s: State, t: State) {
    exists step :: Next(s, step, t)
  }

  /** A run of the goroutines from their start; any step that is enabled may come next. */
  ghost predicate IsRun(rules: seq<Rule>, run: seq<State>) {
    && run != [] && run[0] == Initial(rules)
    && forall i :: 0 <= i < |run| - 1 ==> Steps(run[i], run[i + 1])
  }

  // ----- What every step keeps

  ghost function WalkerHolds(w: Walker, r: Rule): nat {
    w.running[r] + multiset(w.channel)[r] + multiset(w.gathered)[r]
  }

  /** How often the rule's batch is somewhere in the system. */
  ghost function Holds(s: State, r: Rule): nat {
    WalkerHolds(s.global, r) + WalkerHolds(s.path, r) + multiset(s.locals)[r]
    + s.legacy[r] + multiset(s.legacyChannel)[r] + multiset(s.combined)[r]
  }

  ghost predicate WalkerOK(w: Walker) {
    w.delivered ==> w.running == multiset{} && w.channel == [] && w.gathered == []
  }

  ghost predicate Invariant(rules: seq<Rule>, s: State) {
    && (forall r :: Holds(s, r) == multiset(rules)[r])
    && WalkerOK(s.global) && WalkerOK(s.path) && (s.localDelivered ==> s.locals == [])
  }

  lemma HeadAndTail(s: seq<Rule>)
    requires s != []
    ensures multiset(s) == multiset{s[0]} + multiset(s[1..])
  {
    assert s == [s[0]] + s[1..];
  }

  /** One step of a fan-out walker: `before` and `after` are the batches handed over so far. */
  ghost predicate WalkerSteps(w: Walker, w': Walker, before: seq<Rule>, after: seq<Rule>) {
    || (after == before && ((exists x :: Sends(w, x, w')) || Receives(w, w')))
    || (after == before + w.gathered && Delivers(w, w'))
  }

  lemma WalkerKeeps(w: Walker, w': Walker, before: seq<Rule>, after: seq<Rule>, r: Rule)
    requires WalkerSteps(w, w', before, after)
    ensures WalkerHolds(w', r) + multiset(after)[r] == WalkerHolds(w, r) + multiset(before)[r]
  {
    if Receives(w, w') {
      HeadAndTail(w.channel);
    }
  }

  lemma LegacyKeeps(s: State, step: Step, t: State, r: Rule)
    requires Next(s, step, t) && (step.LegacySends? || step.LegacyReceives?)
    ensures t.legacy[r] + multiset(t.legacyChannel)[r] + multiset(t.combined)[r]
         == s.legacy[r] + multiset(s.legacyChannel)[r] + multiset(s.combined)[r]
  {
    if step.LegacyReceives? {
      HeadAndTail(s.legacyChannel);
    }
  }

  /** No step loses or duplicates a batch. */
  lemma StepConserves(s: State, step: Step, t: State, r: Rule)
    requires Next(s, step, t)
    ensures Holds(t, r) == Holds(s, r)
  {
    if step.GlobalSends? || step.GlobalReceives? || step.GlobalDelivers? {
      WalkerKeeps(s.global, t.global, s.combined, t.combined, r);
    } else if step.PathSends? || step.PathReceives? || step.PathDelivers? {
      WalkerKeeps(s.path, t.path, s.combined, t.combined, r);
    } else if step.LocalDelivers? {
      assert multiset(s.combined + s.locals)[r] == multiset(s.combined)[r] + multiset(s.locals)[r];
    } else {
      LegacyKeeps(s, step, t, r);
    }
  }

  lemma StepKeeps(rules: seq<Rule>, s: State, step: Step, t: State)
    requires Invariant(rules, s) && Next(s, step, t)
    ensures Invariant(rules, t)
  {
    forall r ensures Holds(t, r) == multiset(rules)[r] {
      StepConserves(s, step, t, r);
    }
  }

  lemma {:induction false} RunKeeps(rules: seq<Rule>, run: seq<State>, i: nat)
    requires IsRun(rules, run) && i < |run|
    ensures Invariant(rules, run[i])
  {
    if i == 0 {
      forall r ensures Holds(Initial(rules), r) == multiset(rules)[r] {
        TiersPartitionTheRules(rules, r);
      }
    } else {
      RunKeeps(rules, run, i - 1);
      assert Steps(run[i - 1], run[i - 1 + 1]);
      var step :| Next(run[i - 1], step, run[i]);
      StepKeeps(rules, run[i - 1], step, run[i]);
    }
  }

  ghost function WalkerWork(w: Walker): nat {
    2 * |w.running| + |w.channel| + (if w.delivered then 0 else 1)
  }

  ghost function Work(s: State): nat {
    WalkerWork(s.global) + WalkerWork(s.path) + (if s.localDelivered then 0 else 1) + 2 * |s.legacy| + |s.legacyChannel|
  }

  /** No schedule can stall before all batches are combined... */
  lemma NeverStuck(s: State)
    requires !Finished(s)
    ensures exists t :: Steps(s, t)
  {
    if !s.global.delivered {
      GlobalCanStep(s);
    } else if !s.path.delivered {
      PathCanStep(s);
    } else {
      OthersCanStep(s);
    }
  }

  lemma GlobalCanStep(s: State)
    requires !s.global.delivered
    ensures exists t :: Steps(s, t)
  {
    var w := s.global;
    if w.channel != [] {
      var w' := w.(channel := w.channel[1..], gathered := w.gathered + [w.channel[0]]);
      assert Next(s, GlobalReceives, s.(global := w'));
      assert Steps(s, s.(global := w'));
    } else if w.running != multiset{} {
      var r :| r in w.running;
      var w' := w.(running := w.running - multiset{r}, channel := w.channel + [r]);
      assert Next(s, GlobalSends(r), s.(global := w'));
      assert Steps(s, s.(global := w'));
    } else {
      var t := s.(global := w.(gathered := [], delivered := true), combined := s.combined + w.gathered);
      assert Next(s, GlobalDelivers, t);
      assert Steps(s, t);
    }
  }

  lemma PathCanStep(s: State)
    requires !s.path.delivered
    ensures exists t :: Steps(s, t)
  {
    var w := s.path;
    if w.channel != [] {
      var w' := w.(channel := w.channel[1..], gathered := w.gathered + [w.channel[0]]);
      assert Next(s, PathReceives, s.(path := w'));
      assert Steps(s, s.(path := w'));
    } else if w.running != multiset{} {
      var r :| r in w.running;
      var w' := w.(running := w.running - multiset{r}, channel := w.channel + [r]);
      assert Next(s, PathSends(r), s.(path := w'));
      assert Steps(s, s.(path := w'));
    } else {
      var t := s.(path := w.(gathered := [], delivered := true), combined := s.combined + w.gathered);
      assert Next(s, PathDelivers, t);
      assert Steps(s, t);
    }
  }

  lemma OthersCanStep(s: State)
    requires !s.localDelivered || s.legacyChannel != [] || s.legacy != multiset{}
    ensures exists t :: Steps(s, t)
  {
    if !s.localDelivered {
      var t := s.(locals := [], localDelivered := true, combined := s.combined + s.locals);
      assert Next(s, LocalDelivers, t);
      assert Steps(s, t);
    } else if s.legacyChannel != [] {
      var t := s.(legacyChannel := s.legacyChannel[1..], combined := s.combined + [s.legacyChannel[0]]);
      assert Next(s, LegacyReceives, t);
      assert Steps(s, t);
    } else {
      var r :| r in s.legacy;
      var t := s.(legacy := s.legacy - multiset{r}, legacyChannel := s.legacyChannel + [r]);
      assert Next(s, LegacySends(r), t);
      assert Steps(s, t);
    }
  }

  lemma SendWorks(w: Walker, r: Rule, w': Walker)
    requires Sends(w, r, w')
    ensures WalkerWork(w') < WalkerWork(w)
  {
    assert w.running == w'.running + multiset{r};
  }

  /** ...and every schedule comes to an end. */
  lemma StepsRunOut(s: State, step: Step, t: State)
    requires Next(s, step, t)
    ensures Work(t) < Work(s)
  {
    match step
    case GlobalSends(r) => SendWorks(s.global, r, t.global);
    case PathSends(r) => SendWorks(s.path, r, t.path);
    case LegacySends(r) => assert s.legacy == t.legacy + multiset{r};
    case _ =>
  }

  // ----- From batches to the report

  /** Normalisation of one finding: zero confidence becomes one, and the rule's template is stamped if none is set. */
  function Normalise<M>(templates: map<string, string>, f: Finding<M>): Finding<M> {
    var f := if f.Confidence == 0.0 then f.(Confidence := 1.0) else f;
    if f.MessageTemplateID == "" && f.RuleName in templates then f.(MessageTemplateID := templates[f.RuleName]) else f
  }

  function NormaliseAll<M>(templates: map<string, string>, fs: seq<Finding<M>>): seq<Finding<M>> {
    if fs == [] then [] else [Normalise(templates, fs[0])] + NormaliseAll(templates, fs[1..])
  }

  /** Template IDs by rule name, for the rules that supply one; a later rule of the same name wins. */
  function Templates(rules: seq<Rule>): map<string, string> {
    if rules == [] then map[]
    else
      var last := rules[|rules| - 1];
      var before := Templates(rules[..|rules| - 1]);
      if last.templateID == "" then before else before[last.name := last.templateID]
  }

  /** A name has a template exactly when some rule of that name supplies one, and it is the last such rule's. */
  lemma {:induction false} LastTemplateWins(rules: seq<Rule>, name: string)
    ensures name in Templates(rules) <==> exists i :: 0 <= i < |rules| && SuppliesTemplate(rules[i], name)
    ensures forall i :: 0 <= i < |rules| && SuppliesTemplate(rules[i], name)
              && (forall j :: i < j < |rules| ==> !SuppliesTemplate(rules[j], name))
              ==> Templates(rules)[name] == rules[i].templateID
  {
    if rules != [] {
      var n := |rules| - 1;
      LastTemplateWins(rules[..n], name);
      if SuppliesTemplate(rules[n], name) {
        assert name in Templates(rules);
      } else {
        assert forall i :: 0 <= i < n ==> rules[..n][i] == rules[i];
      }
    }
  }

  predicate SuppliesTemplate(r: Rule, name: string) {
    r.name == name && r.templateID != ""
  }

  /** The template that the rules supply for the name: that of the last rule of the name that has one, or none. */
  ghost predicate Supplied(rules: seq<Rule>, name: string, id: string) {
    || (id == "" && forall i :: 0 <= i < |rules| ==> !SuppliesTemplate(rules[i], name))
    || exists i :: 0 <= i < |rules| && SuppliesTemplate(rules[i], name) && id == rules[i].templateID
                   && forall j :: i < j < |rules| ==> !SuppliesTemplate(rules[j], name)
  }

  lemma {:induction false} LastSupplier(rules: seq<Rule>, name: string) returns (i: nat)
    requires exists i :: 0 <= i < |rules| && SuppliesTemplate(rules[i], name)
    ensures i < |rules| && SuppliesTemplate(rules[i], name)
    ensures forall j :: i < j < |rules| ==> !SuppliesTemplate(rules[j], name)
  {
    i := |rules| - 1;
    if !SuppliesTemplate(rules[i], name) {
      i := LastSupplier(rules[..i], name);
    }
  }

  /** g is f with confidence 1.0 for none and, if it had no template ID, the one its rule supplies. */
  ghost predicate Completed<M>(rules: seq<Rule>, f: Finding<M>, g: Finding<M>) {
    && g.RuleName == f.RuleName && g.Severity == f.Severity && g.NodeID == f.NodeID && g.Message == f.Message
    && g.SourceFile == f.SourceFile && g.Confidence == (if f.Confidence == 0.0 then 1.0 else f.Confidence)
    && (f.MessageTemplateID != "" ==> g.MessageTemplateID == f.MessageTemplateID)
    && (f.MessageTemplateID == "" ==> Supplied(rules, f.RuleName, g.MessageTemplateID))
  }

  ghost predicate AllCompleted<M>(rules: seq<Rule>, fs: seq<Finding<M>>, gs: seq<Finding<M>>) {
    |gs| == |fs| && forall i :: 0 <= i < |fs| ==> Completed(rules, fs[i], gs[i])
  }

  lemma NormaliseCompletes<M>(rules: seq<Rule>, f: Finding<M>)
    ensures Completed(rules, f, Normalise(Templates(rules), f))
  {
    LastTemplateWins(rules, f.RuleName);
    if f.RuleName in Templates(rules) {
      var i := LastSupplier(rules, f.RuleName);
    }
  }

  lemma NormaliseCompletesAll<M>(rules: seq<Rule>, fs: seq<Finding<M>>)
    ensures AllCompleted(rules, fs, NormaliseAll(Templates(rules), fs))
  {
    NormaliseAt(Templates(rules), fs);
    forall i | 0 <= i < |fs| ensures Completed(rules, fs[i], NormaliseAll(Templates(rules), fs)[i]) {
      NormaliseCompletes(rules, fs[i]);
    }
  }

  method MessageTemplateIDs(rules: seq<Rule>) returns (m: map<string, string>)
    ensures m == Templates(rules)
  {
    m := map[];
    for i := 0 to |rules|
      invariant m == Templates(rules[..i])
    {
      assert rules[..i + 1][..i] == rules[..i];
      if rules[i].templateID != "" {
        m := m[rules[i].name := rules[i].templateID];
      }
    }
    assert rules[..|rules|] == rules;
  }

  function Flatten<M>(batch: Rule -> seq<Finding<M>>, order: seq<Rule>): seq<Finding<M>> {
    if order == [] then [] else batch(order[0]) + Flatten(batch, order[1..])
  }

  /** The report when the batches were combined in the given order. */
  function Report<M>(rules: seq<Rule>, batch: Rule -> seq<Finding<M>>, order: seq<Rule>): seq<Finding<M>> {
    Sorted(FindingLe<M>, NormaliseAll(Templates(rules), Flatten(batch, order)))
  }

  /** The closing loop and sort of Analyze over the combined findings. */
  method Finish<M(!new)>(rules: seq<Rule>, combined0: seq<Finding<M>>) returns (combined: seq<Finding<M>>)
    ensures combined == Sorted(FindingLe<M>, NormaliseAll(Templates(rules), combined0))
    ensures exists completed :: AllCompleted(rules, combined0, completed) && Arranges(completed, combined)
    ensures InReportOrder(combined)
  {
    var templates := MessageTemplateIDs(rules);
    combined := combined0;
    for i := 0 to |combined0|
      invariant |combined| == |combined0|
      invariant forall j :: 0 <= j < i ==> combined[j] == Normalise(templates, combined0[j])
      invariant forall j :: i <= j < |combined0| ==> combined[j] == combined0[j]
    {
      if combined[i].Confidence == 0.0 {
        combined := combined[i := combined[i].(Confidence := 1.0)];
      }
      if combined[i].MessageTemplateID == "" && combined[i].RuleName in templates {
        combined := combined[i := combined[i].(MessageTemplateID := templates[combined[i].RuleName])];
      }
    }
    NormaliseAt(templates, combined0);
    assert combined == NormaliseAll(templates, combined0);
    FindingLeIsTotalPreorder<M>();
    NormaliseCompletesAll(rules, combined0);
    SortedArranges(combined);
    combined := SortSliceStable(FindingLe<M>, combined);
  }

  lemma {:induction false} NormaliseAt<M>(templates: map<string, string>, fs: seq<Finding<M>>)
    ensures |NormaliseAll(templates, fs)| == |fs|
    ensures forall i :: 0 <= i < |fs| ==> NormaliseAll(templates, fs)[i] == Normalise(templates, fs[i])
  {
    if fs != [] {
      NormaliseAt(templates, fs[1..]);
    }
  }

  ghost predicate DistinctNames(rules: seq<Rule>) {
    forall i, j :: 0 <= i < j < |rules| ==> rules[i].name != rules[j].name
  }

  /** Findings carry the name of the rule that produced them. */
  ghost predicate Attributed<M>(rules: seq<Rule>, batch: Rule -> seq<Finding<M>>) {
    forall r, f :: r in rules && f in batch(r) ==> f.RuleName == r.name
  }

  lemma {:induction false} NormaliseConcat<M>(templates: map<string, string>, a: seq<Finding<M>>, b: seq<Finding<M>>)
    ensures NormaliseAll(templates, a + b) == NormaliseAll(templates, a) + NormaliseAll(templates, b)
  {
    if a == [] {
      assert a + b == b;
    } else {
      NormaliseConcat(templates, a[1..], b);
      assert (a + b)[1..] == a[1..] + b;
    }
  }

  lemma ClassOfOtherRule<M(!new)>(templates: map<string, string>, k: Finding<M>, fs: seq<Finding<M>>)
    requires forall f :: f in fs ==> f.RuleName != k.RuleName
    ensures Class(FindingLe<M>, k, NormaliseAll(templates, fs)) == []
  {
    if fs != [] {
      ClassOfOtherRule(templates, k, fs[1..]);
      assert fs[0] in fs;
      var n := Normalise(templates, fs[0]);
      if FindingLe(k, n) && FindingLe(n, k) {
        TiesShareTheRule(k, n);
      }
    }
  }

  /** Findings that tie with k all come from the one batch of k's rule. */
  lemma {:induction false} ClassOfFlatten<M(!new)>(templates: map<string, string>, batch: Rule -> seq<Finding<M>>,
                                                   order: seq<Rule>, k: Finding<M>, i: nat)
    requires DistinctNames(order) && Attributed(order, batch) && i < |order| && order[i].name == k.RuleName
    ensures Class(FindingLe<M>, k, NormaliseAll(templates, Flatten(batch, order)))
         == Class(FindingLe<M>, k, NormaliseAll(templates, batch(order[i])))
  {
    var head, tail := batch(order[0]), Flatten(batch, order[1..]);
    NormaliseConcat(templates, head, tail);
    ClassConcat(FindingLe<M>, k, NormaliseAll(templates, head), NormaliseAll(templates, tail));
    if i == 0 {
      NoClassWithoutRule(templates, batch, order[1..], k);
    } else {
      ClassOfOtherRule(templates, k, head);
      ClassOfFlatten(templates, batch, order[1..], k, i - 1);
    }
  }

  lemma {:induction false} NoClassWithoutRule<M(!new)>(templates: map<string, string>, batch: Rule -> seq<Finding<M>>,
                                                       order: seq<Rule>, k: Finding<M>)
    requires Attributed(order, batch) && forall r :: r in order ==> r.name != k.RuleName
    ensures Class(FindingLe<M>, k, NormaliseAll(templates, Flatten(batch, order))) == []
  {
    if order != [] {
      var head, tail := batch(order[0]), Flatten(batch, order[1..]);
      assert order[0] in order;
      NormaliseConcat(templates, head, tail);
      ClassConcat(FindingLe<M>, k, NormaliseAll(templates, head), NormaliseAll(templates, tail));
      ClassOfOtherRule(templates, k, head);
      NoClassWithoutRule(templates, batch, order[1..], k);
    }
  }

  lemma DistinctNamesPermuted(a: seq<Rule>, b: seq<Rule>)
    requires DistinctNames(a) && multiset(a) == multiset(b)
    ensures DistinctNames(b)
  {
    forall i, j | 0 <= i < j < |b| ensures b[i].name != b[j].name {
      SameElements(a, b, b[i]);
      SameElements(a, b, b[j]);
      OnceEach(a, b[i]);
      TwiceIsTwo(b, i, j);
      var x :| 0 <= x < |a| && a[x] == b[i];
      var y :| 0 <= y < |a| && a[y] == b[j];
    }
  }

  /** Two outcomes of a rule hold the same tied findings in the same order; how other findings lie does not matter. */
  ghost predicate SameTies<M(!new)>(templates: map<string, string>, a: seq<Finding<M>>, b: seq<Finding<M>>) {
    forall k :: Class(FindingLe<M>, k, NormaliseAll(templates, a)) == Class(FindingLe<M>, k, NormaliseAll(templates, b))
  }

  /** The findings of a report that tie with k are those of k's rule, as the rule gave them. */
  lemma ClassOfReport<M(!new)>(rules: seq<Rule>, batch: Rule -> seq<Finding<M>>, order: seq<Rule>, k: Finding<M>,
                               r: Rule)
    requires DistinctNames(rules) && Attributed(rules, batch) && multiset(order) == multiset(rules)
    requires r in rules && r.name == k.RuleName
    ensures Class(FindingLe<M>, k, Report(rules, batch, order)) ==
              Class(FindingLe<M>, k, NormaliseAll(Templates(rules), batch(r)))
  {
    var templates := Templates(rules);
    FindingLeIsTotalPreorder<M>();
    SortedStable(FindingLe<M>, k, NormaliseAll(templates, Flatten(batch, order)));
    DistinctNamesPermuted(rules, order);
    OrderHoldsRules(rules, order);
    var i :| 0 <= i < |order| && order[i] == r;
    ClassOfFlatten(templates, batch, order, k, i);
  }

  lemma OrderHoldsRules(rules: seq<Rule>, order: seq<Rule>)
    requires multiset(order) == multiset(rules)
    ensures forall r :: r in order <==> r in rules
  {
    forall r ensures r in order <==> r in rules {
      SameElements(order, rules, r);
    }
  }

  lemma NoClassOfReport<M(!new)>(rules: seq<Rule>, batch: Rule -> seq<Finding<M>>, order: seq<Rule>, k: Finding<M>)
    requires Attributed(rules, batch) && multiset(order) == multiset(rules)
    requires forall r :: r in rules ==> r.name != k.RuleName
    ensures Class(FindingLe<M>, k, Report(rules, batch, order)) == []
  {
    FindingLeIsTotalPreorder<M>();
    SortedStable(FindingLe<M>, k, NormaliseAll(Templates(rules), Flatten(batch, order)));
    OrderHoldsRules(rules, order);
    NoClassWithoutRule(Templates(rules), batch, order, k);
  }

  /**
   * Two reports are the same exactly when each rule gave its tied findings in the same order. The order in which the
   * batches were combined never matters.
   */
  lemma ReportsAgreeIff<M(!new)>(rules: seq<Rule>, a: Rule -> seq<Finding<M>>, b: Rule -> seq<Finding<M>>, p: seq<Rule>,
                                 q: seq<Rule>)
    requires DistinctNames(rules) && Attributed(rules, a) && Attributed(rules, b)
    requires multiset(p) == multiset(rules) && multiset(q) == multiset(rules)
    ensures Report(rules, a, p) == Report(rules, b, q) <==>
            forall r :: r in rules ==> SameTies(Templates(rules), a(r), b(r))
  {
    if Report(rules, a, p) == Report(rules, b, q) {
      forall r | r in rules ensures SameTies(Templates(rules), a(r), b(r)) {
        TiesAgree(rules, a, b, p, q, r);
      }
    }
    if forall r :: r in rules ==> SameTies(Templates(rules), a(r), b(r)) {
      forall k ensures Class(FindingLe<M>, k, Report(rules, a, p)) == Class(FindingLe<M>, k, Report(rules, b, q)) {
        if r :| r in rules && r.name == k.RuleName {
          ClassOfReport(rules, a, p, k, r);
          ClassOfReport(rules, b, q, k, r);
        } else {
          NoClassOfReport(rules, a, p, k);
          NoClassOfReport(rules, b, q, k);
        }
      }
      FindingLeIsTotalPreorder<M>();
      SortedIsSorted(FindingLe<M>, NormaliseAll(Templates(rules), Flatten(a, p)));
      SortedIsSorted(FindingLe<M>, NormaliseAll(Templates(rules), Flatten(b, q)));
      StableUnique(FindingLe<M>, Report(rules, a, p), Report(rules, b, q));
    }
  }

  lemma TiesAgree<M(!new)>(rules: seq<Rule>, a: Rule -> seq<Finding<M>>, b: Rule -> seq<Finding<M>>, p: seq<Rule>,
                           q: seq<Rule>, r: Rule)
    requires DistinctNames(rules) && Attributed(rules, a) && Attributed(rules, b) && r in rules
    requires multiset(p) == multiset(rules) && multiset(q) == multiset(rules)
    requires Report(rules, a, p) == Report(rules, b, q)
    ensures SameTies(Templates(rules), a(r), b(r))
  {
    var templates := Templates(rules);
    forall k: Finding<M>
      ensures Class(FindingLe<M>, k, NormaliseAll(templates, a(r))) ==
                Class(FindingLe<M>, k, NormaliseAll(templates, b(r)))
    {
      if k.RuleName == r.name {
        ClassOfReport(rules, a, p, k, r);
        ClassOfReport(rules, b, q, k, r);
      } else {
        ClassOfOtherRule(templates, k, a(r));
        ClassOfOtherRule(templates, k, b(r));
      }
    }
  }

  // ----- Which outcomes hold the same ties

  /** No two findings agree in all that the canonical order looks at. */
  ghost predicate NoTies<M>(templates: map<string, string>, fs: seq<Finding<M>>) {
    var n := NormaliseAll(templates, fs);
    forall x, y :: x in n && y in n && FindingLe(x, y) && FindingLe(y, x) ==> x == y
  }

  lemma {:induction false} NormaliseMultiset<M>(templates: map<string, string>, a: seq<Finding<M>>, b: seq<Finding<M>>)
    requires multiset(a) == multiset(b)
    ensures multiset(NormaliseAll(templates, a)) == multiset(NormaliseAll(templates, b))
    decreases |a|
  {
    if a == [] {
      assert |multiset(b)| == 0;
    } else {
      var l, r := SplitAt(b, a[0]);
      assert a == [] + [a[0]] + a[1..] && [] + a[1..] == a[1..];
      NormaliseMultiset(templates, a[1..], l + r);
      NormaliseWithout(templates, l, a[0], r);
      NormaliseWithout(templates, [], a[0], a[1..]);
    }
  }

  /** Around an occurrence of x. */
  lemma SplitAt<T>(s: seq<T>, x: T) returns (l: seq<T>, r: seq<T>)
    requires x in multiset(s)
    ensures s == l + [x] + r && multiset(l + r) == multiset(s) - multiset{x}
  {
    assert x in s;
    var j :| 0 <= j < |s| && s[j] == x;
    l, r := s[..j], s[j + 1..];
    assert s == l + [x] + r;
  }

  lemma NormaliseWithout<M>(templates: map<string, string>, l: seq<Finding<M>>, f: Finding<M>, r: seq<Finding<M>>)
    ensures multiset(NormaliseAll(templates, l + [f] + r)) ==
              multiset(NormaliseAll(templates, l + r)) + multiset{Normalise(templates, f)}
  {
    NormaliseConcat(templates, l, r);
    NormaliseConcat(templates, l + [f], r);
    NormaliseSnoc(templates, l, f);
    Around(NormaliseAll(templates, l), Normalise(templates, f), NormaliseAll(templates, r));
  }

  lemma NormaliseSnoc<M>(templates: map<string, string>, l: seq<Finding<M>>, f: Finding<M>)
    ensures NormaliseAll(templates, l + [f]) == NormaliseAll(templates, l) + [Normalise(templates, f)]
  {
    NormaliseConcat(templates, l, [f]);
    assert [f][1..] == [];
  }

  lemma Around<T>(l: seq<T>, x: T, r: seq<T>)
    ensures multiset(l + [x] + r) == multiset(l + r) + multiset{x}
  {}

  /** A rule without ties may give its findings in any order. */
  lemma NoTiesAgree<M(!new)>(templates: map<string, string>, a: seq<Finding<M>>, b: seq<Finding<M>>)
    requires multiset(a) == multiset(b) && NoTies(templates, a)
    ensures SameTies(templates, a, b)
  {
    NormaliseMultiset(templates, a, b);
    FindingLeIsTotalPreorder<M>();
    forall k
      ensures Class(FindingLe<M>, k, NormaliseAll(templates, a)) == Class(FindingLe<M>, k, NormaliseAll(templates, b))
    {
      ClassPermuted(FindingLe<M>, k, NormaliseAll(templates, a), NormaliseAll(templates, b));
    }
  }

  /** One that reports each node at most once has none. */
  lemma OncePerNodeHasNoTies<M(!new)>(templates: map<string, string>, fs: seq<Finding<M>>)
    requires forall i, j :: 0 <= i < j < |fs| ==> fs[i].NodeID != fs[j].NodeID
    ensures NoTies(templates, fs)
  {
    NormaliseAt(templates, fs);
    var n := NormaliseAll(templates, fs);
    forall i, j | 0 <= i < |n| && 0 <= j < |n| && FindingLe(n[i], n[j]) && FindingLe(n[j], n[i]) ensures n[i] == n[j] {
      TiesShareTheRule(n[i], n[j]);
      assert n[i].NodeID == fs[i].NodeID && n[j].NodeID == fs[j].NodeID;
    }
  }

  // ----- Main results

  /** In a complete run every rule's batch has been combined, once for each time the rule was given. */
  lemma CompleteRunsCombineAll(rules: seq<Rule>, run: seq<State>)
    requires IsRun(rules, run) && Finished(run[|run| - 1])
    ensures multiset(run[|run| - 1].combined) == multiset(rules)
  {
    var last := run[|run| - 1];
    RunKeeps(rules, run, |run| - 1);
    forall r ensures multiset(last.combined)[r] == multiset(rules)[r] {
      assert Holds(last, r) == multiset(rules)[r];
    }
  }

  /**
   * Any two complete runs, whatever their schedules, give the same report exactly when each rule gave its tied findings
   * in the same order; in particular when each rule is a function of the graph. Rule names are distinct and findings
   * carry their rule's name.
   */
  lemma ScheduleIndependence<M(!new)>(rules: seq<Rule>, a: Rule -> seq<Finding<M>>, b: Rule -> seq<Finding<M>>,
                                      run: seq<State>, other: seq<State>)
    requires DistinctNames(rules) && Attributed(rules, a) && Attributed(rules, b)
    requires IsRun(rules, run) && Finished(run[|run| - 1])
    requires IsRun(rules, other) && Finished(other[|other| - 1])
    ensures Report(rules, a, run[|run| - 1].combined) == Report(rules, b, other[|other| - 1].combined) <==>
            forall r :: r in rules ==> SameTies(Templates(rules), a(r), b(r))
  {
    CompleteRunsCombineAll(rules, run);
    CompleteRunsCombineAll(rules, other);
    ReportsAgreeIff(rules, a, b, run[|run| - 1].combined, other[|other| - 1].combined);
  }
}
