/** Merging two rule lists by name: the last rule of a name wins. */
module RuleMerge {
  import opened Wrappers
  import opened Collections
  import opened RuleRegistry
  import opened RuleEngine
  import opened ConfigMerge

  function RuleName(rule: Rule): string {
    rule.name
  }

  /** The last rule of that name. */
  function LastRule(list: seq<Rule>, name: string): Option<Rule> {
    LastBy(list, RuleName, name)
  }

  lemma {:induction false} LastRuleMember(list: seq<Rule>, name: string)
    ensures LastRule(list, name).Some? ==> LastRule(list, name).value in list && LastRule(list, name).value.name == name
    ensures LastRule(list, name).None? ==> forall r :: r in list ==> r.name != name
  {
    if list != [] {
      LastRuleMember(list[..|list| - 1], name);
      assert list == list[..|list| - 1] + [list[|list| - 1]];
    }
  }

  /** The order of the registry, which does not depend on what a rule matches. */
  predicate RuleBefore(a: Rule, b: Rule) {
    Before(CompiledRule(a, _ => true), CompiledRule(b, _ => true))
  }

  /** `result` has the last rule of every name in `all`, and nothing else. */
  ghost predicate Winners(result: seq<Rule>, all: seq<Rule>) {
    forall r :: r in result <==> LastRule(all, r.name) == Some(r)
  }

  /** The rules of the map filled from `all`, sorted by priority and name. */
  method MergeRules(base: seq<Rule>, override: seq<Rule>) returns (result: seq<Rule>)
    ensures Winners(result, base + override) && SortedBy(result, RuleBefore)
    ensures forall i, j :: 0 <= i < j < |result| ==>
              && result[i].priority >= result[j].priority
              && (result[i].priority == result[j].priority ==> NameBefore(result[i].name, result[j].name))
  {
    hide RuleBefore, NameBefore;
    var merged: map<string, Rule> := map[];
    for i := 0 to |base|
      invariant Filled(merged, base[..i])
    {
      OneMoreFilled(merged, base[..i], base[i]);
      assert base[..i + 1] == base[..i] + [base[i]];
      merged := merged[base[i].name := base[i]];
    }
    assert base[..|base|] == base && base + override[..0] == base;
    for i := 0 to |override|
      invariant Filled(merged, base + override[..i])
    {
      OneMoreFilled(merged, base + override[..i], override[i]);
      assert base + override[..i + 1] == base + override[..i] + [override[i]];
      merged := merged[override[i].name := override[i]];
    }
    assert override[..|override|] == override;
    FilledNames(merged, base + override);
    result := SortRules(merged);
    FilledWins(merged, base + override, result);
    RulesOrdered(result);
  }

  lemma RulesOrdered(rules: seq<Rule>)
    requires SortedBy(rules, RuleBefore)
    ensures forall i, j :: 0 <= i < j < |rules| ==>
              && rules[i].priority >= rules[j].priority
              && (rules[i].priority == rules[j].priority ==> NameBefore(rules[i].name, rules[j].name))
  {
    hide NameBefore, Before;
    forall i, j | 0 <= i < j < |rules|
      ensures rules[i].priority >= rules[j].priority
      ensures rules[i].priority == rules[j].priority ==> NameBefore(rules[i].name, rules[j].name)
    {
      assert RuleBefore(rules[i], rules[j]);
      BeforeIff(CompiledRule(rules[i], _ => true), CompiledRule(rules[j], _ => true));
    }
  }

  /** Each name leads to its last rule. */
  ghost predicate Filled(merged: map<string, Rule>, all: seq<Rule>) {
    && (forall name :: name in merged ==> LastRule(all, name) == Some(merged[name]))
    && (forall name :: LastRule(all, name).Some? ==> name in merged)
  }

  lemma FilledNames(merged: map<string, Rule>, all: seq<Rule>)
    requires Filled(merged, all)
    ensures forall name :: name in merged ==> merged[name].name == name
  {
    forall name | name in merged
      ensures merged[name].name == name
    {
      LastRuleMember(all, name);
    }
  }

  lemma OneMoreFilled(merged: map<string, Rule>, all: seq<Rule>, rule: Rule)
    requires Filled(merged, all)
    ensures Filled(merged[rule.name := rule], all + [rule])
  {
    assert (all + [rule])[..|all|] == all;
  }

  lemma FilledWins(merged: map<string, Rule>, all: seq<Rule>, result: seq<Rule>)
    requires Filled(merged, all) && forall r :: r in result <==> r.name in merged && merged[r.name] == r
    ensures Winners(result, all)
  {
  }

  method SortRules(merged: map<string, Rule>) returns (result: seq<Rule>)
    requires forall name :: name in merged ==> merged[name].name == name
    ensures SortedBy(result, RuleBefore) && forall r :: r in result <==> r.name in merged && merged[r.name] == r
  {
    hide RuleBefore;
    result := [];
    var names := KeysInAnyOrder(merged.Keys);
    for i := 0 to |names|
      invariant SortedBy(result, RuleBefore)
      invariant forall r :: r in result <==> r.name in names[..i] && r.name in merged && merged[r.name] == r
    {
      var rule := merged[names[i]];
      assert names[..i + 1] == names[..i] + [names[i]];
      assert names[i] !in names[..i];
      forall j | 0 <= j < |result|
        ensures RuleBefore(rule, result[j]) || RuleBefore(result[j], rule)
      {
        assert result[j] in result;
        RuleBeforeTotal(rule, result[j]);
      }
      forall j, k | 0 <= j < k < |result| && RuleBefore(rule, result[j])
        ensures RuleBefore(rule, result[k])
      {
        RuleBeforeTransitive(rule, result[j], result[k]);
      }
      result := Insert(result, rule, RuleBefore);
    }
    assert names[..|names|] == names;
  }

  lemma RuleBeforeTotal(a: Rule, b: Rule)
    requires a.name != b.name
    ensures RuleBefore(a, b) || RuleBefore(b, a)
  {
    BeforeTotal(CompiledRule(a, _ => true), CompiledRule(b, _ => true));
  }

  lemma RuleBeforeTransitive(a: Rule, b: Rule, c: Rule)
    requires RuleBefore(a, b) && RuleBefore(b, c)
    ensures RuleBefore(a, c)
  {
    BeforeTransitive(CompiledRule(a, _ => true), CompiledRule(b, _ => true), CompiledRule(c, _ => true));
  }

  // ----- merging, then installing -----

  function Listed(rules: seq<Rule>): (r: seq<Option<Rule>>)
    ensures |r| == |rules| && forall i :: 0 <= i < |rules| ==> r[i] == Some(rules[i])
  {
    seq(|rules|, i requires 0 <= i < |rules| => Some(rules[i]))
  }

  ghost predicate CanInstall(build: Builder, rules: seq<Rule>) {
    forall r :: r in rules ==> Installable(build, Some(r))
  }

  lemma {:induction false} InstalledRuleIsLast(build: Builder, rules: seq<Rule>, name: string)
    requires CanInstall(build, rules)
    ensures var m := Installed(build, map[], Listed(rules));
            && (name in m <==> LastRule(rules, name).Some?)
            && (name in m ==> Compiled(build, LastRule(rules, name).value) == Ok(m[name]))
  {
    if rules != [] {
      var n := |rules| - 1;
      InstalledRuleIsLast(build, rules[..n], name);
      assert Listed(rules)[..n] == Listed(rules[..n]);
      assert rules[n] in rules;
    }
  }

  lemma WinnersLookup(result: seq<Rule>, all: seq<Rule>, name: string)
    requires Winners(result, all)
    ensures LastRule(result, name) == LastRule(all, name)
  {
    LastRuleMember(result, name);
    LastRuleMember(all, name);
  }

  /** COMMUTES. Installing the merged list gives the same registry map as installing one list
      after the other. */
  lemma MergeThenInstall(build: Builder, base: seq<Rule>, override: seq<Rule>, result: seq<Rule>)
    requires CanInstall(build, base + override) && Winners(result, base + override)
    ensures Installed(build, map[], Listed(result)) == Installed(build, map[], Listed(base + override))
  {
    hide LastRule, Installed;
    var all := base + override;
    forall r | r in result
      ensures Installable(build, Some(r))
    {
      LastRuleMember(all, r.name);
    }
    var a, b := Installed(build, map[], Listed(result)), Installed(build, map[], Listed(all));
    forall name: string
      ensures name in a <==> name in b
      ensures name in a ==> a[name] == b[name]
    {
      InstalledRuleIsLast(build, result, name);
      InstalledRuleIsLast(build, all, name);
      WinnersLookup(result, all, name);
    }
  }

  // ----- the two merges agree -----

  function AsRules(configs: seq<RuleConfig>): (r: seq<Rule>)
    ensures |r| == |configs| && forall i :: 0 <= i < |configs| ==> r[i] == configs[i].Convert()
  {
    seq(|configs|, i requires 0 <= i < |configs| => configs[i].Convert())
  }

  lemma {:induction false} ConvertedLookup(configs: seq<RuleConfig>, name: string)
    ensures LastRule(AsRules(configs), name) ==
            if LastNamed(configs, name).Some? then Some(LastNamed(configs, name).value.Convert()) else None
  {
    if configs != [] {
      var n := |configs| - 1;
      ConvertedLookup(configs[..n], name);
      assert AsRules(configs)[..n] == AsRules(configs[..n]);
    }
  }

  /** For every name, merging converted lists and converting the merged configuration look up
      the same rule. */
  lemma MergesAgree(globalRules: seq<RuleConfig>, projectRules: seq<RuleConfig>, name: string)
    requires name != ""
    ensures LastRule(AsRules(globalRules) + AsRules(projectRules), name) ==
            LastRule(AsRules(Merged(globalRules, projectRules)), name)
  {
    hide LastRule, LastNamed, Merged;
    assert AsRules(globalRules) + AsRules(projectRules) == AsRules(globalRules + projectRules);
    ConvertedLookup(globalRules + projectRules, name);
    LastNamedConcat(globalRules, projectRules, name);
    ConvertedLookup(Merged(globalRules, projectRules), name);
    MergedLookup(globalRules, projectRules, name);
  }
}
