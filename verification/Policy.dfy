/** The severity policy: overrides merged over a global entry, and an in-place pass over the findings. */
module Policy {
  import opened Domain
  import opened Ignore

  // ----- Severity policy

  datatype RuleConfig = RuleConfig(Severity: string, Enabled: Option<bool>)

  datatype OverridePolicy = OverridePolicy(Paths: seq<string>, Rules: map<string, RuleConfig>)

  /** `glob` is the pattern matcher the policy delegates to. */
  datatype RulePolicy = RulePolicy(Rules: map<string, RuleConfig>, Overrides: seq<OverridePolicy>,
                                   glob: (string, string) -> bool)

  function ForwardSlashes(s: string): string {
    seq(|s|, i requires 0 <= i < |s| => if s[i] == '\\' then '/' else s[i])
  }

  /** A pattern ending in a double star names what lies below a directory, not the directory itself. */
  predicate MatchPattern(glob: (string, string) -> bool, pattern: string, path: string) {
    pattern != "" &&
    var p, q := ForwardSlashes(pattern), ForwardSlashes(path);
    glob(p, q) &&
    !(|p| >= 3 && p[|p| - 3..] == "/**" && (q == p[..|p| - 3] || q == p[..|p| - 3] + "/"))
  }

  lemma SlashesAre(s: string)
    ensures |ForwardSlashes(s)| == |s|
    ensures forall i :: 0 <= i < |s| ==>
              ForwardSlashes(s)[i] != '\\' && (s[i] != '\\' ==> ForwardSlashes(s)[i] == s[i])
              && (s[i] == '\\' ==> ForwardSlashes(s)[i] == '/')
  {}

  /** A double star after a directory matches what the glob does, except the directory itself. */
  lemma DoubleStarIff(glob: (string, string) -> bool, dir: string, path: string)
    ensures MatchPattern(glob, dir + "/**", path) <==>
            && glob(ForwardSlashes(dir) + "/**", ForwardSlashes(path))
            && ForwardSlashes(path) != ForwardSlashes(dir) && ForwardSlashes(path) != ForwardSlashes(dir) + "/"
  {
    var p := ForwardSlashes(dir + "/**");
    assert p == ForwardSlashes(dir) + "/**";
    assert p[|p| - 3..] == "/**" && p[..|p| - 3] == ForwardSlashes(dir);
  }

  /** Every other pattern matches what the glob does. */
  lemma OtherPatternIff(glob: (string, string) -> bool, pattern: string, path: string)
    requires forall dir :: ForwardSlashes(pattern) != dir + "/**"
    ensures MatchPattern(glob, pattern, path) <==> pattern != "" && glob(ForwardSlashes(pattern), ForwardSlashes(path))
  {
    var p := ForwardSlashes(pattern);
    assert |p| >= 3 ==> p == p[..|p| - 3] + p[|p| - 3..];
  }

  predicate PathMatchesAny(glob: (string, string) -> bool, path: string, patterns: seq<string>) {
    path != "" && exists p :: p in patterns && MatchPattern(glob, p, path)
  }

  /** The override says something about this rule in this file. */
  predicate Applies(policy: RulePolicy, o: OverridePolicy, rule: string, file: string) {
    rule in o.Rules && PathMatchesAny(policy.glob, file, o.Paths)
  }

  function Global(policy: RulePolicy, rule: string): RuleConfig {
    if rule in policy.Rules then policy.Rules[rule] else RuleConfig("", None)
  }

  function Overlay(c: RuleConfig, rc: RuleConfig): RuleConfig {
    RuleConfig(if rc.Severity != "" then rc.Severity else c.Severity,
               if rc.Enabled.Some? then rc.Enabled else c.Enabled)
  }

  function Merged(policy: RulePolicy, overrides: seq<OverridePolicy>, rule: string, file: string): RuleConfig {
    if overrides == [] then Global(policy, rule)
    else
      var last := overrides[|overrides| - 1];
      var before := Merged(policy, overrides[..|overrides| - 1], rule, file);
      if Applies(policy, last, rule, file) then Overlay(before, last.Rules[rule]) else before
  }

  method MergeRuleConfig(policy: RulePolicy, rule: string, file: string) returns (merged: RuleConfig)
    ensures merged == Merged(policy, policy.Overrides, rule, file)
  {
    merged := Global(policy, rule);
    for i := 0 to |policy.Overrides|
      invariant merged == Merged(policy, policy.Overrides[..i], rule, file)
    {
      var o := policy.Overrides[i];
      assert policy.Overrides[..i + 1][..i] == policy.Overrides[..i];
      if !PathMatchesAny(policy.glob, file, o.Paths) {
        continue;
      }
      if rule in o.Rules {
        var rc := o.Rules[rule];
        if rc.Severity != "" {
          merged := merged.(Severity := rc.Severity);
        }
        if rc.Enabled.Some? {
          merged := merged.(Enabled := rc.Enabled);
        }
      }
    }
    assert policy.Overrides[..|policy.Overrides|] == policy.Overrides;
  }

  predicate SetsSeverity(policy: RulePolicy, o: OverridePolicy, rule: string, file: string) {
    Applies(policy, o, rule, file) && o.Rules[rule].Severity != ""
  }

  predicate SetsEnabled(policy: RulePolicy, o: OverridePolicy, rule: string, file: string) {
    Applies(policy, o, rule, file) && o.Rules[rule].Enabled.Some?
  }

  /** The severity is that of the last matching override that sets one... */
  lemma {:induction false} LastOverrideDecidesSeverity(policy: RulePolicy, os: seq<OverridePolicy>, rule: string,
                                                       file: string, i: nat)
    requires i < |os| && SetsSeverity(policy, os[i], rule, file)
    requires forall j :: i < j < |os| ==> !SetsSeverity(policy, os[j], rule, file)
    ensures Merged(policy, os, rule, file).Severity == os[i].Rules[rule].Severity
  {
    if i < |os| - 1 {
      LastOverrideDecidesSeverity(policy, os[..|os| - 1], rule, file, i);
    }
  }

  /** ...and whether the rule is enabled that of the last one that says so, independently of the severity... */
  lemma {:induction false} LastOverrideDecidesEnabled(policy: RulePolicy, os: seq<OverridePolicy>, rule: string,
                                                      file: string, i: nat)
    requires i < |os| && SetsEnabled(policy, os[i], rule, file)
    requires forall j :: i < j < |os| ==> !SetsEnabled(policy, os[j], rule, file)
    ensures Merged(policy, os, rule, file).Enabled == os[i].Rules[rule].Enabled
  {
    if i < |os| - 1 {
      LastOverrideDecidesEnabled(policy, os[..|os| - 1], rule, file, i);
    }
  }

  /** ...and the rule's global entry where no matching override sets the field. */
  lemma {:induction false} GlobalDecidesOtherwise(policy: RulePolicy, os: seq<OverridePolicy>, rule: string,
                                                  file: string)
    ensures (forall j :: 0 <= j < |os| ==> !SetsSeverity(policy, os[j], rule, file)) ==>
              Merged(policy, os, rule, file).Severity == Global(policy, rule).Severity
    ensures (forall j :: 0 <= j < |os| ==> !SetsEnabled(policy, os[j], rule, file)) ==>
              Merged(policy, os, rule, file).Enabled == Global(policy, rule).Enabled
  {
    if os != [] {
      GlobalDecidesOtherwise(policy, os[..|os| - 1], rule, file);
    }
  }

  function ParseSeverity(s: string): Option<Severity> {
    match s
    case "critical" => Some(Critical)
    case "warning" => Some(Warning)
    case "info" => Some(Info)
    case _ => None
  }

  /** The finding under an effective configuration, or None when it is dropped. */
  function Outcome<M>(effective: RuleConfig, f: Finding<M>): Option<Finding<M>> {
    if effective.Enabled == Some(false) then None
    else if ParseSeverity(effective.Severity).Some? then Some(f.(Severity := ParseSeverity(effective.Severity).value))
    else if effective.Severity == "off" then None
    else Some(f)
  }

  /** The finding as the policy leaves it. */
  function Judge<M>(policy: RulePolicy, f: Finding<M>): Option<Finding<M>> {
    Outcome(Merged(policy, policy.Overrides, f.RuleName, f.SourceFile), f)
  }

  function AsSeq<T>(o: Option<T>): seq<T> {
    if o.Some? then [o.value] else []
  }

  function Judged<M>(policy: RulePolicy, fs: seq<Finding<M>>): seq<Finding<M>> {
    if fs == [] then []
    else
      var last := |fs| - 1;
      Judged(policy, fs[..last]) + AsSeq(Judge(policy, fs[last]))
  }

  function JudgedIfSet<M>(policy: Option<RulePolicy>, fs: seq<Finding<M>>): seq<Finding<M>> {
    if policy.None? then fs else Judged(policy.value, fs)
  }

  lemma EmptyPolicyKeeps<M>(policy: RulePolicy, f: Finding<M>)
    requires policy.Rules == map[] && policy.Overrides == []
    ensures Judge(policy, f) == Some(f)
  {
    assert Merged(policy, [], f.RuleName, f.SourceFile) == RuleConfig("", None);
  }

  lemma {:induction false} EmptyPolicyKeepsAll<M>(policy: RulePolicy, fs: seq<Finding<M>>)
    requires policy.Rules == map[] && policy.Overrides == []
    ensures Judged(policy, fs) == fs
  {
    if fs != [] {
      var last := |fs| - 1;
      EmptyPolicyKeepsAll(policy, fs[..last]);
      EmptyPolicyKeeps(policy, fs[last]);
      PrefixSnoc(fs, last);
      PrefixAll(fs);
    }
  }

  method JudgeOne<M>(policy: RulePolicy, f: Finding<M>) returns (judged: Option<Finding<M>>)
    ensures judged == Judge(policy, f)
  {
    var effective := MergeRuleConfig(policy, f.RuleName, f.SourceFile);
    if effective.Enabled == Some(false) {
      return None;
    }
    var sev := ParseSeverity(effective.Severity);
    if sev.Some? {
      return Some(f.(Severity := sev.value));
    }
    return if effective.Severity == "off" then None else Some(f);
  }

  method JudgeAll<M>(a: array<Finding<M>>, n: nat, p: RulePolicy) returns (k: nat)
    requires n <= a.Length
    modifies a
    ensures k <= n && a[..k] == Judged(p, old(a[..n])) && (forall j :: k <= j < a.Length ==> a[j] == old(a[j]))
  {
    ghost var was := a[..n];
    k := 0;
    for i := 0 to n
      invariant k <= i <= n == |was| && a[..k] == Judged(p, was[..i])
      invariant forall j :: k <= j < a.Length ==> a[j] == old(a[j])
    {
      var f := a[i];
      assert f == was[i];
      PrefixSnoc(was, i);
      JudgedConcat(p, was[..i], f);
      var judged := JudgeOne(p, f);
      if judged.Some? {
        Put(a, k, judged.value);
        k := k + 1;
      }
    }
    PrefixAll(was);
  }

  method ApplyPolicy<M>(a: array<Finding<M>>, n: nat, policy: Option<RulePolicy>) returns (k: nat)
    requires n <= a.Length
    modifies a
    ensures k <= n && a[..k] == JudgedIfSet(policy, old(a[..n]))
    ensures forall j :: k <= j < a.Length ==> a[j] == old(a[j])
  {
    if policy.None? {
      return n;
    }
    var p := policy.value;
    if |p.Rules| == 0 && |p.Overrides| == 0 {
      EmptyPolicyKeepsAll(p, a[..n]);
      return n;
    }
    k := JudgeAll(a, n, p);
  }

  lemma JudgedConcat<M>(policy: RulePolicy, fs: seq<Finding<M>>, f: Finding<M>)
    ensures Judged(policy, fs + [f]) == Judged(policy, fs) + AsSeq(Judge(policy, f))
  {
    assert (fs + [f])[..|fs|] == fs;
  }

  /** A second application changes nothing. */
  lemma {:induction false} PolicyIsIdempotent<M>(policy: RulePolicy, fs: seq<Finding<M>>)
    ensures Judged(policy, Judged(policy, fs)) == Judged(policy, fs)
  {
    if fs != [] {
      var last := |fs| - 1;
      PolicyIsIdempotent(policy, fs[..last]);
      match Judge(policy, fs[last])
      case Some(f) => JudgedConcat(policy, Judged(policy, fs[..last]), f);
      case None => assert Judged(policy, fs) == Judged(policy, fs[..last]);
    }
  }

  // ----- What the policy makes of a finding

  /** The severity that the last matching override to set one sets, or else the rule's global entry. */
  ghost predicate SeverityIs(policy: RulePolicy, rule: string, file: string, s: string) {
    var os := policy.Overrides;
    || (exists i :: 0 <= i < |os| && SetsSeverity(policy, os[i], rule, file) && s == os[i].Rules[rule].Severity
                    && forall j :: i < j < |os| ==> !SetsSeverity(policy, os[j], rule, file))
    || ((forall j :: 0 <= j < |os| ==> !SetsSeverity(policy, os[j], rule, file))
        && s == if rule in policy.Rules then policy.Rules[rule].Severity else "")
  }

  /** Whether the rule is enabled, from the last matching override to say so, or else from its global entry. */
  ghost predicate EnabledIs(policy: RulePolicy, rule: string, file: string, e: Option<bool>) {
    var os := policy.Overrides;
    || (exists i :: 0 <= i < |os| && SetsEnabled(policy, os[i], rule, file) && e == os[i].Rules[rule].Enabled
                    && forall j :: i < j < |os| ==> !SetsEnabled(policy, os[j], rule, file))
    || ((forall j :: 0 <= j < |os| ==> !SetsEnabled(policy, os[j], rule, file))
        && e == if rule in policy.Rules then policy.Rules[rule].Enabled else None)
  }

  lemma {:induction false} LastSeveritySetter(policy: RulePolicy, os: seq<OverridePolicy>, rule: string, file: string)
    returns (i: nat)
    requires exists j :: 0 <= j < |os| && SetsSeverity(policy, os[j], rule, file)
    ensures i < |os| && SetsSeverity(policy, os[i], rule, file)
    ensures forall j :: i < j < |os| ==> !SetsSeverity(policy, os[j], rule, file)
  {
    i := |os| - 1;
    if !SetsSeverity(policy, os[i], rule, file) {
      i := LastSeveritySetter(policy, os[..i], rule, file);
    }
  }

  lemma {:induction false} LastEnabledSetter(policy: RulePolicy, os: seq<OverridePolicy>, rule: string, file: string)
    returns (i: nat)
    requires exists j :: 0 <= j < |os| && SetsEnabled(policy, os[j], rule, file)
    ensures i < |os| && SetsEnabled(policy, os[i], rule, file)
    ensures forall j :: i < j < |os| ==> !SetsEnabled(policy, os[j], rule, file)
  {
    i := |os| - 1;
    if !SetsEnabled(policy, os[i], rule, file) {
      i := LastEnabledSetter(policy, os[..i], rule, file);
    }
  }

  lemma SeverityIff(policy: RulePolicy, rule: string, file: string, s: string)
    ensures SeverityIs(policy, rule, file, s) <==> Merged(policy, policy.Overrides, rule, file).Severity == s
  {
    var os := policy.Overrides;
    if exists j :: 0 <= j < |os| && SetsSeverity(policy, os[j], rule, file) {
      var i := LastSeveritySetter(policy, os, rule, file);
      LastOverrideDecidesSeverity(policy, os, rule, file, i);
    } else {
      GlobalDecidesOtherwise(policy, os, rule, file);
    }
  }

  lemma EnabledIff(policy: RulePolicy, rule: string, file: string, e: Option<bool>)
    ensures EnabledIs(policy, rule, file, e) <==> Merged(policy, policy.Overrides, rule, file).Enabled == e
  {
    var os := policy.Overrides;
    if exists j :: 0 <= j < |os| && SetsEnabled(policy, os[j], rule, file) {
      var i := LastEnabledSetter(policy, os, rule, file);
      LastOverrideDecidesEnabled(policy, os, rule, file, i);
    } else {
      GlobalDecidesOtherwise(policy, os, rule, file);
    }
  }

  /** The severity named, or the finding's own for an empty or unknown name. */
  predicate NamesSeverity(s: string, own: Severity, result: Severity) {
    && (s == "critical" ==> result == Critical) && (s == "warning" ==> result == Warning)
    && (s == "info" ==> result == Info)
    && (s !in {"critical", "warning", "info"} ==> result == own)
  }

  /** The finding is dropped: its rule is disabled or "off". */
  ghost predicate Dropped<M>(policy: RulePolicy, f: Finding<M>) {
    EnabledIs(policy, f.RuleName, f.SourceFile, Some(false)) || SeverityIs(policy, f.RuleName, f.SourceFile, "off")
  }

  /** x is the finding with the severity the policy gives it. */
  ghost predicate Becomes<M>(policy: RulePolicy, f: Finding<M>, x: Finding<M>) {
    && !Dropped(policy, f) && x.(Severity := f.Severity) == f
    && exists s :: SeverityIs(policy, f.RuleName, f.SourceFile, s) && NamesSeverity(s, f.Severity, x.Severity)
  }

  lemma JudgeIff<M>(policy: RulePolicy, f: Finding<M>, x: Finding<M>)
    ensures Judge(policy, f) == None <==> Dropped(policy, f)
    ensures Judge(policy, f) == Some(x) <==> Becomes(policy, f, x)
  {
    var c := Merged(policy, policy.Overrides, f.RuleName, f.SourceFile);
    SeverityIff(policy, f.RuleName, f.SourceFile, "off");
    SeverityIff(policy, f.RuleName, f.SourceFile, c.Severity);
    EnabledIff(policy, f.RuleName, f.SourceFile, Some(false));
    forall s ensures SeverityIs(policy, f.RuleName, f.SourceFile, s) <==> s == c.Severity {
      SeverityIff(policy, f.RuleName, f.SourceFile, s);
    }
  }

  // ----- Severity "off" against disabling the rule

  const OFF := RuleConfig("off", None)
  const DISABLED := RuleConfig("", Some(false))

  /** What these overrides say about the rule, whatever came before them. */
  function Said(policy: RulePolicy, os: seq<OverridePolicy>, rule: string, file: string): RuleConfig {
    Merged(policy.(Rules := map[]), os, rule, file)
  }

  lemma {:induction false} MergedSplits(policy: RulePolicy, before: seq<OverridePolicy>, later: seq<OverridePolicy>,
                                        rule: string, file: string)
    ensures Merged(policy, before + later, rule, file) ==
              Overlay(Merged(policy, before, rule, file), Said(policy, later, rule, file))
  {
    if later == [] {
      assert before + later == before;
    } else {
      var n := |later| - 1;
      assert (before + later)[..|before| + n] == before + later[..n];
      MergedSplits(policy, before, later[..n], rule, file);
    }
  }

  /**
   * An entry that says "off" amounts to one that disables the rule exactly when the
   * entries around it leave both alone: a later one may enable the rule or set another
   * severity, and an earlier one may have set "off" or disabled it already.
   */
  ghost predicate OffIsDisabled(before: RuleConfig, later: RuleConfig) {
    match later.Enabled
    case Some(enabled) => !enabled || later.Severity != "" || before.Severity == "off"
    case None => before.Enabled == Some(false) || later.Severity in {"", "off"}
  }

  lemma OutcomesAgreeIff<M>(before: RuleConfig, later: RuleConfig, f: Finding<M>)
    ensures (Outcome(Overlay(Overlay(before, OFF), later), f)
             == Outcome(Overlay(Overlay(before, DISABLED), later), f)) <==>
            OffIsDisabled(before, later)
  {}

  function WithGlobal(policy: RulePolicy, rule: string, entry: RuleConfig): RulePolicy {
    policy.(Rules := policy.Rules[rule := entry])
  }

  /** For the rule's global entry the overrides decide... */
  lemma OffIsDisabledGloballyIff<M>(policy: RulePolicy, f: Finding<M>)
    ensures Judge(WithGlobal(policy, f.RuleName, OFF), f) == Judge(WithGlobal(policy, f.RuleName, DISABLED), f) <==>
            OffIsDisabled(RuleConfig("", None), Said(policy, policy.Overrides, f.RuleName, f.SourceFile))
  {
    var rule, file, os := f.RuleName, f.SourceFile, policy.Overrides;
    var off, disabled := WithGlobal(policy, rule, OFF), WithGlobal(policy, rule, DISABLED);
    assert [] + os == os;
    MergedSplits(off, [], os, rule, file);
    MergedSplits(disabled, [], os, rule, file);
    assert off.(Rules := map[]) == disabled.(Rules := map[]) == policy.(Rules := map[]);
    OutcomesAgreeIff(RuleConfig("", None), Said(policy, os, rule, file), f);
  }

  /** The policy with this entry for the rule in one more override between the others. */
  function WithOverride(policy: RulePolicy, before: seq<OverridePolicy>, paths: seq<string>, rule: string,
                        entry: RuleConfig, later: seq<OverridePolicy>): RulePolicy {
    policy.(Overrides := before + [OverridePolicy(paths, map[rule := entry])] + later)
  }

  lemma MergedAround(policy: RulePolicy, before: seq<OverridePolicy>, paths: seq<string>, rule: string,
                     entry: RuleConfig, later: seq<OverridePolicy>, file: string)
    requires PathMatchesAny(policy.glob, file, paths)
    ensures var p := WithOverride(policy, before, paths, rule, entry, later);
            Merged(p, p.Overrides, rule, file) ==
              Overlay(Overlay(Merged(policy, before, rule, file), entry), Said(policy, later, rule, file))
  {
    var o := OverridePolicy(paths, map[rule := entry]);
    var p := WithOverride(policy, before, paths, rule, entry, later);
    MergedSplits(p, before + [o], later, rule, file);
    assert (before + [o])[..|before|] == before;
    SameMerge(p, policy, before, rule, file);
    SameMerge(p.(Rules := map[]), policy.(Rules := map[]), later, rule, file);
  }

  /** Merging looks at the overrides it is given, not at those of the policy. */
  lemma {:induction false} SameMerge(p: RulePolicy, q: RulePolicy, os: seq<OverridePolicy>, rule: string, file: string)
    requires p.Rules == q.Rules && p.glob == q.glob
    ensures Merged(p, os, rule, file) == Merged(q, os, rule, file)
  {
    if os != [] {
      SameMerge(p, q, os[..|os| - 1], rule, file);
    }
  }

  /**
   * ...and for an entry in an override the entries before and after it, unless the override does not match the file.
   */
  lemma OffIsDisabledInOverrideIff<M>(policy: RulePolicy, before: seq<OverridePolicy>, paths: seq<string>,
                                      later: seq<OverridePolicy>, f: Finding<M>)
    requires PathMatchesAny(policy.glob, f.SourceFile, paths)
    ensures (Judge(WithOverride(policy, before, paths, f.RuleName, OFF, later), f)
             == Judge(WithOverride(policy, before, paths, f.RuleName, DISABLED, later), f)) <==>
            OffIsDisabled(Merged(policy, before, f.RuleName, f.SourceFile),
                          Said(policy, later, f.RuleName, f.SourceFile))
  {
    MergedAround(policy, before, paths, f.RuleName, OFF, later, f.SourceFile);
    MergedAround(policy, before, paths, f.RuleName, DISABLED, later, f.SourceFile);
    OutcomesAgreeIff(Merged(policy, before, f.RuleName, f.SourceFile),
                     Said(policy, later, f.RuleName, f.SourceFile), f);
  }

  /** One override, for every file, that sets the rule's severity and nothing else. */
  function SeverityEverywhere(rule: string): RulePolicy {
    RulePolicy(map[], [OverridePolicy(["**"], map[rule := RuleConfig("warning", None)])], (pattern, path) => true)
  }

  /** It brings back a rule that is "off", but not one that is disabled. */
  lemma OffIsOverruled<M>(f: Finding<M>)
    requires f.SourceFile != ""
    ensures Judge(WithGlobal(SeverityEverywhere(f.RuleName), f.RuleName, OFF), f) == Some(f.(Severity := Warning))
    ensures Judge(WithGlobal(SeverityEverywhere(f.RuleName), f.RuleName, DISABLED), f) == None
  {
    var policy := SeverityEverywhere(f.RuleName);
    var o := policy.Overrides[0];
    assert policy.Overrides[..0] == [] && o.Paths[0] in o.Paths;
    assert MatchPattern(policy.glob, "**", f.SourceFile);
    assert Applies(policy, o, f.RuleName, f.SourceFile);
    forall entry ensures Merged(WithGlobal(policy, f.RuleName, entry), policy.Overrides, f.RuleName, f.SourceFile)
                      == RuleConfig("warning", entry.Enabled) {
      var p := WithGlobal(policy, f.RuleName, entry);
      assert Merged(p, [], f.RuleName, f.SourceFile) == entry;
      assert Applies(p, o, f.RuleName, f.SourceFile);
    }
  }
}
