/** Merging global and project rules before they are installed. */
module ConfigMerge {
  import opened Wrappers
  import opened Collections
  import opened RuleRegistry
  import opened RuleEngine

  datatype RuleConfig = RuleConfig(
    name: string,
    description: string,
    enabled: Option<bool>,
    priority: int,
    conditions: Option<string>,
    action: Option<RuleAction>)
  {
    predicate IsEnabled() {
      enabled.None? || enabled.value
    }

    function Convert(): Rule {
      Rule(name, description, IsEnabled(), priority, conditions, action)
    }
  }

  // ----- looking names up -----

  function ConfigName(config: RuleConfig): string {
    config.name
  }

  /** The last rule of that name. */
  function LastNamed(list: seq<RuleConfig>, name: string): Option<RuleConfig> {
    LastBy(list, ConfigName, name)
  }

  lemma {:induction false} LastNamedConcat(a: seq<RuleConfig>, b: seq<RuleConfig>, name: string)
    ensures LastNamed(a + b, name) == if LastNamed(b, name).Some? then LastNamed(b, name) else LastNamed(a, name)
  {
    if b == [] {
      assert a + b == a;
    } else {
      assert (a + b)[..|a + b| - 1] == a + b[..|b| - 1];
      LastNamedConcat(a, b[..|b| - 1], name);
    }
  }

  lemma LastNamedNone(name: string)
    ensures LastNamed([], name) == None
  {
  }

  predicate Mentions(list: seq<RuleConfig>, name: string) {
    exists i :: 0 <= i < |list| && list[i].name == name
  }

  lemma {:induction false} LastNamedMentions(list: seq<RuleConfig>, name: string)
    ensures LastNamed(list, name).Some? <==> Mentions(list, name)
    ensures LastNamed(list, name).Some? ==>
              LastNamed(list, name).value in list && LastNamed(list, name).value.name == name
  {
    if list != [] {
      var n := |list| - 1;
      LastNamedMentions(list[..n], name);
      if list[n].name != name && Mentions(list, name) {
        var i :| 0 <= i < |list| && list[i].name == name;
        assert list[..n][i].name == name;
      }
      if Mentions(list[..n], name) {
        var i :| 0 <= i < n && list[..n][i].name == name;
        assert list[i].name == name;
      }
    }
  }

  /** The rule that should win: the project's last one of that name, else the global one. */
  function Winner(globalRules: seq<RuleConfig>, projectRules: seq<RuleConfig>, name: string): Option<RuleConfig> {
    if LastNamed(projectRules, name).Some? then LastNamed(projectRules, name) else LastNamed(globalRules, name)
  }

  // ----- the merge -----

  /** Global rules, each overridden by the project's rule of its name. */
  function Overridden(globalRules: seq<RuleConfig>, projectRules: seq<RuleConfig>): seq<RuleConfig> {
    if globalRules == [] then [] else
      var last := globalRules[|globalRules| - 1];
      Overridden(globalRules[..|globalRules| - 1], projectRules) +
      [if last.name != "" && LastNamed(projectRules, last.name).Some?
       then LastNamed(projectRules, last.name).value else last]
  }

  /** Project rules whose name no global rule has, and those without a name. */
  function Remaining(globalRules: seq<RuleConfig>, projectRules: seq<RuleConfig>): seq<RuleConfig> {
    if projectRules == [] then [] else
      var last := projectRules[|projectRules| - 1];
      Remaining(globalRules, projectRules[..|projectRules| - 1]) +
      if last.name == "" || !Mentions(globalRules, last.name) then [last] else []
  }

  function Merged(globalRules: seq<RuleConfig>, projectRules: seq<RuleConfig>): seq<RuleConfig> {
    if globalRules == [] then projectRules
    else if projectRules == [] then globalRules
    else Overridden(globalRules, projectRules) + Remaining(globalRules, projectRules)
  }

  /** Every global rule keeps its place, or gives it to the project's last rule of its name. */
  lemma {:induction false} OverriddenIs(globalRules: seq<RuleConfig>, projectRules: seq<RuleConfig>)
    ensures |Overridden(globalRules, projectRules)| == |globalRules|
    ensures forall i :: 0 <= i < |globalRules| ==>
              var own := LastNamed(projectRules, globalRules[i].name);
              Overridden(globalRules, projectRules)[i] ==
                if globalRules[i].name != "" && own.Some? then own.value else globalRules[i]
  {
    hide LastNamed;
    if globalRules != [] {
      var n := |globalRules| - 1;
      OverriddenIs(globalRules[..n], projectRules);
      assert forall i :: 0 <= i < n ==> globalRules[..n][i] == globalRules[i];
    }
  }

  predicate Stays(globalRules: seq<RuleConfig>, rule: RuleConfig) {
    rule.name == "" || !Mentions(globalRules, rule.name)
  }

  lemma NoneRemaining(globalRules: seq<RuleConfig>)
    ensures Remaining(globalRules, []) == []
  {
  }

  lemma RemainingLast(globalRules: seq<RuleConfig>, projectRules: seq<RuleConfig>)
    requires projectRules != []
    ensures var (n, last) := (|projectRules| - 1, projectRules[|projectRules| - 1]);
            Remaining(globalRules, projectRules) ==
              Remaining(globalRules, projectRules[..n]) + if Stays(globalRules, last) then [last] else []
  {
    hide Mentions;
  }

  /** The project's other rules follow in order: those without a name, and those whose name no
      global rule has. */
  lemma {:induction false} RemainingPick(globalRules: seq<RuleConfig>, projectRules: seq<RuleConfig>)
    returns (at: seq<nat>)
    ensures var rest := Remaining(globalRules, projectRules);
            && Increasing(at, |projectRules|) && |at| == |rest|
            && (forall i: nat {:trigger i in at} :: i < |projectRules| ==>
                  (i in at <==> projectRules[i].name == "" || !Mentions(globalRules, projectRules[i].name)))
            && (forall k :: 0 <= k < |at| ==> at[k] < |projectRules| && rest[k] == projectRules[at[k]])
  {
    hide Mentions, Increasing, Remaining, TakenToo;
    NoIndexes();
    NoneRemaining(globalRules);
    at := [];
    if projectRules != [] {
      var n := |projectRules| - 1;
      var before := RemainingPick(globalRules, projectRules[..n]);
      RemainingLast(globalRules, projectRules);
      IncreasingOneMore(before, n, Stays(globalRules, projectRules[n]));
      at := TakenToo(before, n, Stays(globalRules, projectRules[n]));
    }
  }

  method MergeRules(globalRules: seq<RuleConfig>, projectRules: seq<RuleConfig>) returns (merged: seq<RuleConfig>)
    ensures merged == Merged(globalRules, projectRules)
  {
    if |globalRules| == 0 {
      return projectRules;
    }
    if |projectRules| == 0 {
      return globalRules;
    }

    var byName: map<string, RuleConfig> := map[];
    for i := 0 to |projectRules|
      invariant forall n :: n in byName <==> n != "" && LastNamed(projectRules[..i], n).Some?
      invariant forall n :: n in byName ==> byName[n] == LastNamed(projectRules[..i], n).value
    {
      var rule := projectRules[i];
      assert projectRules[..i + 1][..i] == projectRules[..i];
      if rule.name != "" {
        byName := byName[rule.name := rule];
      }
    }
    assert projectRules[..|projectRules|] == projectRules;

    merged := [];
    var seen: set<string> := {};
    for i := 0 to |globalRules|
      invariant merged == Overridden(globalRules[..i], projectRules)
      invariant forall n :: n in seen <==> n != "" && Mentions(globalRules[..i], n)
    {
      var rule := globalRules[i];
      assert globalRules[..i + 1][..i] == globalRules[..i];
      MentionsOneMore(globalRules, i);
      if rule.name != "" {
        if rule.name in byName {
          merged := merged + [byName[rule.name]];
        } else {
          merged := merged + [rule];
        }
        seen := seen + {rule.name};
      } else {
        merged := merged + [rule];
      }
    }
    assert globalRules[..|globalRules|] == globalRules;

    for i := 0 to |projectRules|
      invariant merged == Overridden(globalRules, projectRules) + Remaining(globalRules, projectRules[..i])
    {
      var rule := projectRules[i];
      assert projectRules[..i + 1][..i] == projectRules[..i];
      if rule.name != "" && rule.name !in seen {
        merged := merged + [rule];
      } else if rule.name == "" {
        merged := merged + [rule];
      }
    }
    assert projectRules[..|projectRules|] == projectRules;
  }

  lemma MentionsOneMore(list: seq<RuleConfig>, i: nat)
    requires i < |list|
    ensures forall n :: Mentions(list[..i + 1], n) <==> Mentions(list[..i], n) || list[i].name == n
  {
    forall n
      ensures Mentions(list[..i + 1], n) <==> Mentions(list[..i], n) || list[i].name == n
    {
      if Mentions(list[..i], n) {
        var j :| 0 <= j < i && list[..i][j].name == n;
        assert list[..i + 1][j].name == n;
      }
      if list[i].name == n {
        assert list[..i + 1][i].name == n;
      }
      if Mentions(list[..i + 1], n) && list[i].name != n {
        var j :| 0 <= j <= i && list[..i + 1][j].name == n;
        assert list[..i][j].name == n;
      }
    }
  }

  // ----- what the merge means -----

  lemma {:induction false} OverriddenLookup(globalRules: seq<RuleConfig>, projectRules: seq<RuleConfig>, name: string)
    requires name != ""
    ensures LastNamed(Overridden(globalRules, projectRules), name) ==
            if LastNamed(globalRules, name).Some? then Winner(globalRules, projectRules, name) else None
  {
    if globalRules != [] {
      var n := |globalRules| - 1;
      OverriddenLookup(globalRules[..n], projectRules, name);
      LastNamedMentions(projectRules, globalRules[n].name);
      LastNamedMentions(projectRules, name);
    }
  }

  lemma {:induction false} RemainingLookup(globalRules: seq<RuleConfig>, projectRules: seq<RuleConfig>, name: string)
    requires name != ""
    ensures LastNamed(Remaining(globalRules, projectRules), name) ==
            if Mentions(globalRules, name) then None else LastNamed(projectRules, name)
  {
    if projectRules != [] {
      var n := |projectRules| - 1;
      var last := projectRules[n];
      RemainingLookup(globalRules, projectRules[..n], name);
      LastNamedConcat(Remaining(globalRules, projectRules[..n]),
                      if last.name == "" || !Mentions(globalRules, last.name) then [last] else [], name);
    }
  }

  /** LAST WINS. For all lists, with duplicates and with either one empty, the last rule of
      a name in the merged list is the project's last rule of that name, if it has one,
      and otherwise the last global one. */
  lemma MergedLookup(globalRules: seq<RuleConfig>, projectRules: seq<RuleConfig>, name: string)
    requires name != ""
    ensures LastNamed(Merged(globalRules, projectRules), name) == Winner(globalRules, projectRules, name)
  {
    if globalRules != [] && projectRules != [] {
      OverriddenLookup(globalRules, projectRules, name);
      RemainingLookup(globalRules, projectRules, name);
      LastNamedConcat(Overridden(globalRules, projectRules), Remaining(globalRules, projectRules), name);
      LastNamedMentions(globalRules, name);
    }
  }

  // ----- what is installed -----

  function OnlyEnabled(list: seq<RuleConfig>): seq<RuleConfig> {
    if list == [] then [] else
      var last := list[|list| - 1];
      OnlyEnabled(list[..|list| - 1]) + if last.IsEnabled() then [last] else []
  }

  lemma OnlyEnabledNext(list: seq<RuleConfig>, n: nat)
    requires n < |list|
    ensures OnlyEnabled(list[..n + 1]) ==
              OnlyEnabled(list[..n]) + if list[n].enabled == Some(false) then [] else [list[n]]
  {
    EnabledOneMore(list, n);
  }

  /** What is dropped are exactly the rules that are explicitly disabled; the rest keeps its order. */
  lemma {:induction false} OnlyEnabledPick(list: seq<RuleConfig>, n: nat) returns (at: seq<nat>)
    requires n <= |list|
    ensures var rest := OnlyEnabled(list[..n]);
            && Increasing(at, n) && |at| == |rest|
            && (forall i: nat {:trigger i in at} :: i < n ==> (i in at <==> list[i].enabled != Some(false)))
            && (forall k :: 0 <= k < |at| ==> at[k] < n && rest[k] == list[at[k]])
  {
    hide OnlyEnabled, Increasing, TakenToo;
    NoIndexes();
    NoneEnabled();
    at := [];
    if n > 0 {
      OnlyEnabledNext(list, n - 1);
      var before := OnlyEnabledPick(list, n - 1);
      IncreasingOneMore(before, n - 1, list[n - 1].enabled != Some(false));
      at := TakenToo(before, n - 1, list[n - 1].enabled != Some(false));
    }
  }

  function Converted(list: seq<RuleConfig>): (r: seq<Option<Rule>>)
    ensures |r| == |list| && forall i :: 0 <= i < |list| ==> r[i] == Some(list[i].Convert())
  {
    seq(|list|, i requires 0 <= i < |list| => Some(list[i].Convert()))
  }

  ghost predicate AllInstallable(build: Builder, list: seq<RuleConfig>) {
    forall i :: 0 <= i < |list| ==> Installable(build, Some(list[i].Convert()))
  }

  /** Installing a list leaves, under each name, the last rule of that name. */
  lemma {:induction false} InstalledIsLast(build: Builder, list: seq<RuleConfig>, name: string)
    requires AllInstallable(build, list)
    ensures var m := Installed(build, map[], Converted(list));
            && (name in m <==> LastNamed(list, name).Some?)
            && (name in m ==> Compiled(build, LastNamed(list, name).value.Convert()) == Ok(m[name]))
  {
    if list != [] {
      var n := |list| - 1;
      InstalledIsLast(build, list[..n], name);
      assert Converted(list)[..n] == Converted(list[..n]);
      assert Installable(build, Some(list[n].Convert()));
    }
  }

  /** The engine installs the enabled rules of the merged list; there is none when no rule
      is enabled, and an error when one of them cannot be installed. */
  method CreateRegistry(build: Builder, globalRules: seq<RuleConfig>, projectRules: seq<RuleConfig>)
    returns (registry: Registry?, ok: bool)
    ensures ok <==> AllInstallable(build, OnlyEnabled(Merged(globalRules, projectRules)))
    ensures ok ==> (registry == null <==> OnlyEnabled(Merged(globalRules, projectRules)) == [])
    ensures ok && registry != null ==> registry.Valid() && forall name ::
      var last := LastNamed(OnlyEnabled(Merged(globalRules, projectRules)), name);
      && (name in registry.Model() <==> last.Some?)
      && (last.Some? ==> Compiled(build, last.value.Convert()) == Ok(registry.Model()[name]))
      && (last.Some? ==> registry.Model()[name].rule ==
                           Rule(name, last.value.description, true, last.value.priority, last.value.conditions,
                                last.value.action))
  {
    hide Merged, OnlyEnabled, Registry.Valid, Installed, Compiled, LastNamed, Installable;
    var merged := MergeRules(globalRules, projectRules);
    var rules: seq<RuleConfig> := [];
    NoneEnabled();
    for i := 0 to |merged|
      invariant rules == OnlyEnabled(merged[..i])
    {
      EnabledOneMore(merged, i);
      if merged[i].IsEnabled() {
        rules := rules + [merged[i]];
      }
    }
    assert merged[..|merged|] == merged;
    if |rules| == 0 {
      return null, true;
    }
    registry := new Registry(build);
    var internalRules := Converted(rules);
    var r, added := registry.AddAll(internalRules);
    if r.Err? {
      assert !Installable(build, Some(rules[added].Convert()));
      return null, false;
    }
    ok := true;
    assert internalRules[..added] == internalRules;
    forall j | 0 <= j < |rules|
      ensures Installable(build, Some(rules[j].Convert()))
    {
      assert Installable(build, internalRules[j]);
    }
    forall name
      ensures (name in registry.Model() <==> LastNamed(rules, name).Some?)
      ensures name in registry.Model() ==>
                Compiled(build, LastNamed(rules, name).value.Convert()) == Ok(registry.Model()[name])
    {
      InstalledIsLast(build, rules, name);
    }
    forall name | LastNamed(rules, name).Some?
      ensures registry.Model()[name].rule ==
                var last := LastNamed(rules, name).value;
                Rule(name, last.description, true, last.priority, last.conditions, last.action)
    {
      EnabledLookup(merged, name);
      LastNamedMentions(rules, name);
      CompiledKeepsRule(build, LastNamed(rules, name).value.Convert());
    }
  }

  lemma CompiledKeepsRule(build: Builder, rule: Rule)
    ensures Compiled(build, rule).Ok? ==> Compiled(build, rule).value.rule == rule
  {
  }

  lemma NoneEnabled()
    ensures OnlyEnabled([]) == []
  {
  }

  lemma EnabledOneMore(list: seq<RuleConfig>, i: nat)
    requires i < |list|
    ensures OnlyEnabled(list[..i + 1]) == OnlyEnabled(list[..i]) + if list[i].IsEnabled() then [list[i]] else []
  {
    assert list[..i + 1][..i] == list[..i];
  }

  predicate HasEnabled(list: seq<RuleConfig>, name: string) {
    exists i :: 0 <= i < |list| && list[i].name == name && list[i].IsEnabled()
  }

  lemma {:induction false} EnabledLookup(list: seq<RuleConfig>, name: string)
    ensures LastNamed(OnlyEnabled(list), name).Some? <==> HasEnabled(list, name)
    ensures LastNamed(OnlyEnabled(list), name).Some? ==> LastNamed(OnlyEnabled(list), name).value.IsEnabled()
    ensures LastNamed(list, name).Some? && LastNamed(list, name).value.IsEnabled() ==>
            LastNamed(OnlyEnabled(list), name) == LastNamed(list, name)
  {
    if list != [] {
      var n := |list| - 1;
      EnabledLookup(list[..n], name);
      LastNamedConcat(OnlyEnabled(list[..n]), if list[n].IsEnabled() then [list[n]] else [], name);
      LastNamedNone(name);
      if HasEnabled(list[..n], name) {
        var i :| 0 <= i < n && list[..n][i].name == name && list[..n][i].IsEnabled();
        assert list[i].name == name && list[i].IsEnabled();
      }
      if HasEnabled(list, name) && !(list[n].name == name && list[n].IsEnabled()) {
        var i :| 0 <= i < |list| && list[i].name == name && list[i].IsEnabled();
        assert list[..n][i].name == name && list[..n][i].IsEnabled();
      }
    }
  }

  // ----- a rule that was switched off may come back -----

  lemma HasEnabledConcat(a: seq<RuleConfig>, b: seq<RuleConfig>, name: string)
    ensures HasEnabled(a + b, name) <==> HasEnabled(a, name) || HasEnabled(b, name)
  {
    if HasEnabled(a, name) {
      var i :| 0 <= i < |a| && a[i].name == name && a[i].IsEnabled();
      assert (a + b)[i] == a[i];
    }
    if HasEnabled(b, name) {
      var i :| 0 <= i < |b| && b[i].name == name && b[i].IsEnabled();
      assert (a + b)[|a| + i] == b[i];
    }
    if HasEnabled(a + b, name) {
      var i :| 0 <= i < |a + b| && (a + b)[i].name == name && (a + b)[i].IsEnabled();
      assert if i < |a| then (a + b)[i] == a[i] else (a + b)[i] == b[i - |a|];
    }
  }

  lemma HasEnabledOne(rule: RuleConfig, name: string)
    ensures HasEnabled([rule], name) <==> rule.name == name && rule.IsEnabled()
    ensures !HasEnabled([], name)
  {
    assert [rule][0] == rule;
  }

  lemma {:induction false} OverriddenEnabled(globalRules: seq<RuleConfig>, projectRules: seq<RuleConfig>, name: string)
    requires name != ""
    ensures var own := LastNamed(projectRules, name);
            HasEnabled(Overridden(globalRules, projectRules), name) <==>
            if own.Some? then Mentions(globalRules, name) && own.value.IsEnabled() else HasEnabled(globalRules, name)
  {
    hide HasEnabled, Mentions;
    if globalRules != [] {
      var n := |globalRules| - 1;
      var last := globalRules[n];
      OverriddenEnabled(globalRules[..n], projectRules, name);
      var own := LastNamed(projectRules, last.name);
      LastNamedMentions(projectRules, last.name);
      LastNamedMentions(projectRules, name);
      var chosen := if last.name != "" && own.Some? then own.value else last;
      HasEnabledConcat(Overridden(globalRules[..n], projectRules), [chosen], name);
      HasEnabledOne(chosen, name);
      HasEnabledConcat(globalRules[..n], [last], name);
      HasEnabledOne(last, name);
      assert globalRules == globalRules[..n] + [last];
      assert globalRules[..n + 1] == globalRules;
      MentionsOneMore(globalRules, n);
    } else {
      NothingEnabled(name);
    }
  }

  lemma NothingEnabled(name: string)
    ensures !HasEnabled([], name) && !Mentions([], name)
  {
  }

  lemma {:induction false} RemainingEnabled(globalRules: seq<RuleConfig>, projectRules: seq<RuleConfig>, name: string)
    requires name != ""
    ensures HasEnabled(Remaining(globalRules, projectRules), name) <==>
            !Mentions(globalRules, name) && HasEnabled(projectRules, name)
  {
    hide HasEnabled, Mentions;
    NothingEnabled(name);
    if projectRules != [] {
      var n := |projectRules| - 1;
      var last := projectRules[n];
      RemainingEnabled(globalRules, projectRules[..n], name);
      var tail := if last.name == "" || !Mentions(globalRules, last.name) then [last] else [];
      HasEnabledConcat(Remaining(globalRules, projectRules[..n]), tail, name);
      HasEnabledConcat(projectRules[..n], [last], name);
      HasEnabledOne(last, name);
      assert projectRules == projectRules[..n] + [last];
    }
  }

  /** The winning rule is disabled, and an enabled duplicate of it survives the merge: one
      in the project's own list, when no global rule of the name takes its place, or one in
      the global list, when the project has none of the name. */
  predicate Resurfaces(globalRules: seq<RuleConfig>, projectRules: seq<RuleConfig>, name: string) {
    && Winner(globalRules, projectRules, name).Some?
    && !Winner(globalRules, projectRules, name).value.IsEnabled()
    && if Mentions(projectRules, name)
       then !Mentions(globalRules, name) && HasEnabled(projectRules, name)
       else HasEnabled(globalRules, name)
  }

  lemma MergedEnabled(globalRules: seq<RuleConfig>, projectRules: seq<RuleConfig>, name: string)
    requires name != "" && Winner(globalRules, projectRules, name).Some?
    requires !Winner(globalRules, projectRules, name).value.IsEnabled()
    ensures HasEnabled(Merged(globalRules, projectRules), name) <==> Resurfaces(globalRules, projectRules, name)
  {
    hide HasEnabled, Mentions, Overridden, Remaining, LastNamed;
    LastNamedMentions(globalRules, name);
    LastNamedMentions(projectRules, name);
    NothingEnabled(name);
    OverriddenEnabled(globalRules, projectRules, name);
    RemainingEnabled(globalRules, projectRules, name);
    HasEnabledConcat(Overridden(globalRules, projectRules), Remaining(globalRules, projectRules), name);
  }

  /** INSTALLED. Disabled rules are dropped only after the merge. What is installed under a
      name is the winning rule if it is enabled and nothing if it is disabled, except
      exactly when an older, enabled duplicate resurfaces. */
  lemma WinnerIsInstalled(globalRules: seq<RuleConfig>, projectRules: seq<RuleConfig>, name: string)
    requires name != ""
    ensures var winner := Winner(globalRules, projectRules, name);
            LastNamed(OnlyEnabled(Merged(globalRules, projectRules)), name) ==
            (if winner.Some? && winner.value.IsEnabled() then winner else None)
            <==> !Resurfaces(globalRules, projectRules, name)
  {
    hide Merged, LastNamed, HasEnabled, Mentions, OnlyEnabled;
    var merged := Merged(globalRules, projectRules);
    var winner := Winner(globalRules, projectRules, name);
    MergedLookup(globalRules, projectRules, name);
    EnabledLookup(merged, name);
    if winner.None? {
      LastNamedMentions(merged, name);
      EnabledIsMentioned(merged, name);
    } else if !winner.value.IsEnabled() {
      MergedEnabled(globalRules, projectRules, name);
    }
  }

  lemma EnabledIsMentioned(list: seq<RuleConfig>, name: string)
    ensures HasEnabled(list, name) ==> Mentions(list, name)
  {
  }

  const SWITCHED_ON := RuleConfig("r", "", Some(true), 0, None, Some(RuleAction("block", "", "")))
  const SWITCHED_OFF := SWITCHED_ON.(enabled := Some(false))

  /** A project file that lists a rule and, further down, switches it off: the disabled rule
      wins the merge, and still the enabled one is installed, whatever compiles it. */
  lemma SwitchedOffTwice(build: Builder)
    requires Compiled(build, SWITCHED_ON.Convert()).Ok?
    ensures var merged := Merged([], [SWITCHED_ON, SWITCHED_OFF]);
            && Winner([], [SWITCHED_ON, SWITCHED_OFF], "r") == Some(SWITCHED_OFF)
            && Resurfaces([], [SWITCHED_ON, SWITCHED_OFF], "r")
            && AllInstallable(build, OnlyEnabled(merged))
            && var m := Installed(build, map[], Converted(OnlyEnabled(merged)));
               "r" in m && Compiled(build, SWITCHED_ON.Convert()) == Ok(m["r"]) && m["r"].rule.enabled
  {
    var list := [SWITCHED_ON, SWITCHED_OFF];
    assert list[..1] == [SWITCHED_ON] && [SWITCHED_ON][..0] == [];
    EnabledOneMore(list, 0);
    EnabledOneMore(list, 1);
    assert list[..0] == [] && list[..2] == list;
    NoneEnabled();
    assert OnlyEnabled(Merged([], list)) == [SWITCHED_ON];
    assert Resurfaces([], list, "r") by {
      WinnerIsInstalled([], list, "r");
      assert [SWITCHED_ON][..0] == [];
    }
    InstalledIsLast(build, [SWITCHED_ON], "r");
  }
}
