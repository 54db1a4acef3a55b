/** The registry and the evaluator as objects. */
module RuleEngine {
  import opened Wrappers
  import opened Collections
  import opened RuleRegistry

  lemma ReplaceKeepsShape(rules: seq<CompiledRule>, i: nat, c: CompiledRule)
    requires i < |rules| && Distinct(rules) && AllUsable(rules) && Usable(c) && c.rule.name == rules[i].rule.name
    ensures Distinct(rules[i := c]) && AllUsable(rules[i := c])
    ensures ToMap(rules[i := c]) == ToMap(rules)[c.rule.name := c]
  {
    hide ToMap;
    var replaced, m := rules[i := c], ToMap(rules)[c.rule.name := c];
    ListsItsMap(rules);
    forall n | n in m
      ensures exists j :: 0 <= j < |replaced| && replaced[j].rule.name == n
    {
      if n == c.rule.name {
        assert replaced[i].rule.name == n;
      } else {
        var j :| 0 <= j < |rules| && rules[j].rule.name == n;
        assert replaced[j].rule.name == n;
      }
    }
    ListedMapIs(replaced, m);
  }

  lemma AppendKeepsShape(rules: seq<CompiledRule>, c: CompiledRule)
    requires Distinct(rules) && AllUsable(rules) && Absent(c.rule.name, rules) && Usable(c)
    ensures Distinct(rules + [c]) && AllUsable(rules + [c])
    ensures ToMap(rules + [c]) == ToMap(rules)[c.rule.name := c]
  {
    assert (rules + [c])[..|rules|] == rules;
  }

  function Without(rules: seq<CompiledRule>, i: nat): (rest: seq<CompiledRule>)
    requires i < |rules|
    ensures |rest| == |rules| - 1
    ensures forall j :: 0 <= j < |rest| ==> rest[j] == rules[if j < i then j else j + 1]
  {
    rules[..i] + rules[i + 1..]
  }

  lemma WithoutArranged(rules: seq<CompiledRule>, i: nat)
    requires i < |rules| && Arranged(rules)
    ensures Arranged(Without(rules, i))
  {
    hide Without, Before;
    var rest := Without(rules, i);
    forall j, k | 0 <= j < k < |rest|
      ensures Before(rest[j], rest[k]) && rest[j].rule.name != rest[k].rule.name
    {
      var j', k' := if j < i then j else j + 1, if k < i then k else k + 1;
      assert rest[j] == rules[j'] && rest[k] == rules[k'] && j' < k';
    }
  }

  lemma DeleteKeepsShape(rules: seq<CompiledRule>, i: nat)
    requires i < |rules| && Arranged(rules)
    ensures Arranged(Without(rules, i))
    ensures ToMap(Without(rules, i)) == ToMap(rules) - {rules[i].rule.name}
  {
    hide ToMap, Without, Ordered;
    var rest, m := Without(rules, i), ToMap(rules) - {rules[i].rule.name};
    WithoutArranged(rules, i);
    ListsItsMap(rules);
    WithoutLists(rules, i, ToMap(rules));
    ListedMapIs(rest, m);
  }

  lemma WithoutLists(rules: seq<CompiledRule>, i: nat, all: Rules)
    requires i < |rules| && Distinct(rules) && Lists(rules, all)
    ensures Lists(Without(rules, i), all - {rules[i].rule.name})
  {
    hide Without;
    var rest, m := Without(rules, i), all - {rules[i].rule.name};
    forall j | 0 <= j < |rest|
      ensures rest[j].rule.name in m && m[rest[j].rule.name] == rest[j]
    {
      var j' := if j < i then j else j + 1;
      assert rest[j] == rules[j'];
    }
    forall n | n in m
      ensures exists j :: 0 <= j < |rest| && rest[j].rule.name == n
    {
      var j :| 0 <= j < |rules| && rules[j].rule.name == n;
      assert rest[if j < i then j else j - 1].rule.name == n;
    }
  }

  lemma NameAbsent(rules: seq<CompiledRule>, name: string)
    requires Distinct(rules)
    ensures name in ToMap(rules) <==> !Absent(name, rules)
  {
    hide ToMap;
    InMap(rules);
  }

  class Registry {
    const build: Builder
    var rules: seq<CompiledRule>

    predicate Valid()
      reads this
    {
      Arranged(rules)
    }

    /** The map the array refines. */
    ghost function Model(): Rules
      reads this
    {
      ToMap(rules)
    }

    constructor (build: Builder)
      ensures Valid() && Model() == map[] && this.build == build
    {
      this.build := build;
      rules := [];
      new;
      NothingIsArranged();
    }

    method Sort()
      requires Distinct(rules) && AllUsable(rules)
      modifies this
      ensures Valid() && Model() == old(Model())
      ensures forall i, j :: 0 <= i < j < |rules| ==>
                && rules[i].rule.priority >= rules[j].rule.priority
                && (rules[i].rule.priority == rules[j].rule.priority ==>
                      NameBefore(rules[i].rule.name, rules[j].rule.name))
    {
      hide NameBefore, Ordered;
      SortedArranged(rules);
      SortedKeepsMap(rules);
      rules := Sorted(rules, Before);
      OrderedIff(rules);
    }

    /** Installs the compiled rule under its name, or changes nothing and says why. */
    method Add(rule: Option<Rule>) returns (r: Result<(), string>)
      requires Valid()
      modifies this
      ensures Valid()
      ensures r.Ok? <==>
                rule.Some? && rule.value.name != "" && rule.value.action.Some? && Compiled(build, rule.value).Ok?
      ensures r.Ok? ==> Model() == old(Model())[rule.value.name := Compiled(build, rule.value).value]
      ensures r.Ok? ==>
                var (c, built) := (Model()[rule.value.name], build(rule.value.conditions));
                c.rule == rule.value && built.Ok?
                && if built.value.Some? then c.matcher == built.value.value else forall ctx :: c.matcher(ctx)
      ensures r.Err? ==> rules == old(rules)
    {
      hide ToMap, Sorted, Ordered, NameBefore;
      if rule.None? {
        return Err("rule cannot be nil");
      }
      if rule.value.name == "" {
        return Err("rule name cannot be empty");
      }
      if rule.value.action.None? {
        return Err("rule action cannot be nil");
      }
      var compiled := Compiled(build, rule.value);
      if compiled.Err? {
        return Err(compiled.error);
      }
      var c := compiled.value;

      for i := 0 to |rules|
        invariant rules == old(rules)
        invariant Absent(c.rule.name, rules[..i])
      {
        if rules[i].rule.name == c.rule.name {
          ReplaceKeepsShape(rules, i, c);
          rules := rules[i := c];
          Sort();
          return Ok(());
        }
      }
      assert rules[..|rules|] == rules;
      AppendKeepsShape(rules, c);
      rules := rules + [c];
      Sort();
      return Ok(());
    }

    /** Adds rules in order and stops at the first that is rejected. */
    method AddAll(list: seq<Option<Rule>>) returns (r: Result<(), string>, ghost added: nat)
      requires Valid()
      modifies this
      ensures Valid() && added <= |list| && (r.Ok? ==> added == |list|)
      ensures forall i :: 0 <= i < added ==> Installable(build, list[i])
      ensures r.Err? ==> added < |list| && !Installable(build, list[added])
      ensures Model() == Installed(build, old(Model()), list[..added])
    {
      hide ToMap;
      added := 0;
      for i := 0 to |list|
        invariant Valid() && added == i
        invariant forall j :: 0 <= j < i ==> Installable(build, list[j])
        invariant Model() == Installed(build, old(Model()), list[..i])
      {
        assert list[..i + 1][..i] == list[..i];
        var one := Add(list[i]);
        if one.Err? {
          return one, added;
        }
        added := i + 1;
      }
      return Ok(()), added;
    }

    method Remove(name: string) returns (found: bool)
      requires Valid()
      modifies this
      ensures Valid()
      ensures found <==> name in old(Model())
      ensures Model() == old(Model()) - {name}
    {
      hide ToMap, Ordered;
      for i := 0 to |rules|
        invariant rules == old(rules)
        invariant Absent(name, rules[..i])
      {
        if rules[i].rule.name == name {
          NameAbsent(rules, name);
          DeleteKeepsShape(rules, i);
          rules := Without(rules, i);
          return true;
        }
      }
      assert rules[..|rules|] == rules;
      NameAbsent(rules, name);
      assert old(Model()) - {name} == old(Model());
      return false;
    }

    method Clear()
      modifies this
      ensures Valid() && Model() == map[]
    {
      rules := [];
      NothingIsArranged();
    }

    /** The source's rules win. The source may be this registry. */
    method Merge(source: Registry?)
      requires Valid() && (source != null ==> source.Valid())
      modifies this
      ensures Valid()
      ensures Model() == if source == null then old(Model()) else old(Model()) + old(source.Model())
    {
      hide ToMap, Sorted, Ordered;
      if source == null {
        return;
      }
      var sourceRules := source.rules;
      ghost var mine := Model();

      var existing: map<string, nat> := map[];
      for i := 0 to |rules|
        invariant rules == old(rules)
        invariant forall n :: n in existing ==> existing[n] < i && rules[existing[n]].rule.name == n
        invariant forall j :: 0 <= j < i ==> rules[j].rule.name in existing
      {
        existing := existing[rules[i].rule.name := i];
      }

      EmptyMap();
      assert mine + map[] == mine;
      assert sourceRules[..0] == [];
      for k := 0 to |sourceRules|
        invariant Distinct(rules) && AllUsable(rules)
        invariant forall n :: n in existing ==> existing[n] < |rules| && rules[existing[n]].rule.name == n
        invariant forall j :: 0 <= j < |rules| ==> rules[j].rule.name in existing
        invariant ToMap(rules) == mine + ToMap(sourceRules[..k])
      {
        var c := sourceRules[k];
        MapOneMore(sourceRules, k);
        assert (mine + ToMap(sourceRules[..k]))[c.rule.name := c] == mine + ToMap(sourceRules[..k])[c.rule.name := c];
        if c.rule.name in existing {
          ReplaceKeepsShape(rules, existing[c.rule.name], c);
          rules := rules[existing[c.rule.name] := c];
        } else {
          AppendKeepsShape(rules, c);
          rules := rules + [c];
          existing := existing[c.rule.name := |rules| - 1];
        }
      }
      assert sourceRules[..|sourceRules|] == sourceRules;
      Sort();
    }

    method Get(name: string) returns (r: Option<CompiledRule>)
      requires Valid()
      ensures r.Some? <==> name in Model()
      ensures r.Some? ==> r.value == Model()[name]
    {
      hide ToMap, Ordered;
      InMap(rules);
      for i := 0 to |rules|
        invariant Absent(name, rules[..i])
      {
        if rules[i].rule.name == name {
          return Some(rules[i]);
        }
      }
      assert rules[..|rules|] == rules;
      return None;
    }

    method GetEnabled() returns (enabled: seq<CompiledRule>)
      ensures enabled == Enabled(rules)
    {
      enabled := [];
      for i := 0 to |rules|
        invariant enabled == Enabled(rules[..i])
      {
        assert rules[..i + 1][..i] == rules[..i];
        if rules[i].rule.enabled {
          enabled := enabled + [rules[i]];
        }
      }
      assert rules[..|rules|] == rules;
    }
  }

  lemma EmptyMap()
    ensures ToMap([]) == map[]
  {
  }

  lemma MapOneMore(rules: seq<CompiledRule>, k: nat)
    requires k < |rules|
    ensures ToMap(rules[..k + 1]) == ToMap(rules[..k])[rules[k].rule.name := rules[k]]
  {
    assert rules[..k + 1][..k] == rules[..k];
  }

  predicate Installable(build: Builder, rule: Option<Rule>) {
    rule.Some? && rule.value.name != "" && rule.value.action.Some? && Compiled(build, rule.value).Ok?
  }

  /** The map after installing rules one after the other. */
  ghost function Installed(build: Builder, m: Rules, list: seq<Option<Rule>>): Rules {
    if list == [] then m else
      var before := Installed(build, m, list[..|list| - 1]);
      var last := list[|list| - 1];
      if Installable(build, last) then before[last.value.name := Compiled(build, last.value).value] else before
  }

  function Enabled(rules: seq<CompiledRule>): seq<CompiledRule> {
    if rules == [] then [] else
      var last := rules[|rules| - 1];
      Enabled(rules[..|rules| - 1]) + if last.rule.enabled then [last] else []
  }

  // ----- evaluation -----

  datatype RuleResult = RuleResult(
    matched: bool,
    rule: Option<Rule>,
    action: string,
    message: string,
    reference: string)

  predicate Applies(c: CompiledRule, ctx: MatchContext) {
    c.rule.enabled && c.matcher(ctx)
  }

  function ResultOf(c: CompiledRule): RuleResult
    requires c.rule.action.Some?
  {
    var a := c.rule.action.value;
    RuleResult(true, Some(c.rule), a.kind, a.message, a.reference)
  }

  /** What is picked in order from the first rules stays in order when the next is added. */
  lemma PickedOrdered(picked: seq<CompiledRule>, rules: seq<CompiledRule>, n: nat)
    requires n < |rules| && Ordered(rules) && Ordered(picked)
    requires forall c :: c in picked ==> c in rules[..n]
    ensures Ordered(picked + [rules[n]])
  {
    hide Before;
    forall i | 0 <= i < |picked|
      ensures Before(picked[i], rules[n])
    {
      assert picked[i] in picked;
      var j :| 0 <= j < n && rules[..n][j] == picked[i];
      assert Before(rules[j], rules[n]);
    }
  }

  lemma FirstOrdered(rules: seq<CompiledRule>)
    requires rules != [] && Ordered(rules)
    ensures Ordered(rules[..|rules| - 1])
    ensures forall c :: c in rules <==> c == rules[|rules| - 1] || c in rules[..|rules| - 1]
  {
    hide Before;
    assert rules == rules[..|rules| - 1] + [rules[|rules| - 1]];
  }

  lemma {:induction false} EnabledContents(rules: seq<CompiledRule>)
    requires Ordered(rules)
    ensures Ordered(Enabled(rules))
    ensures forall c :: c in Enabled(rules) <==> c in rules && c.rule.enabled
  {
    if rules == [] {
      NothingIsArranged();
    } else {
      hide Ordered;
      var n := |rules| - 1;
      FirstOrdered(rules);
      EnabledContents(rules[..n]);
      PickedOrdered(Enabled(rules[..n]), rules, n);
    }
  }

  /** The rule that decides: it applies, and it precedes every other rule that does. */
  ghost predicate Decides(m: Rules, c: CompiledRule, ctx: MatchContext) {
    && c.rule.name in m && m[c.rule.name] == c && Applies(c, ctx)
    && forall n :: n in m && Applies(m[n], ctx) ==> m[n] == c || Before(c, m[n])
  }

  /** HIGHEST. The rule that decides is enabled and matches, no such rule has a higher priority,
      and among those of the same priority it has the least name. */
  lemma DecidesIffHighest(m: Rules, c: CompiledRule, ctx: MatchContext)
    requires forall n :: n in m ==> m[n].rule.name == n
    ensures Decides(m, c, ctx) <==>
              && c.rule.name in m && m[c.rule.name] == c && c.rule.enabled && c.matcher(ctx)
              && forall n :: n in m && m[n].rule.enabled && m[n].matcher(ctx) ==>
                   && m[n].rule.priority <= c.rule.priority
                   && (m[n].rule.priority == c.rule.priority ==> n == c.rule.name || NameBefore(c.rule.name, n))
  {
    hide Before, NameBefore;
    forall n | n in m
      ensures Before(c, m[n]) <==>
                && m[n].rule.priority <= c.rule.priority
                && (m[n].rule.priority == c.rule.priority ==> NameBefore(c.rule.name, n))
    {
      BeforeIff(c, m[n]);
    }
  }

  lemma MapNames(rules: seq<CompiledRule>)
    requires Distinct(rules)
    ensures forall n :: n in ToMap(rules) ==> ToMap(rules)[n].rule.name == n
  {
    hide ToMap;
    InMap(rules);
  }

  lemma FirstMatchDecides(rules: seq<CompiledRule>, i: nat, ctx: MatchContext)
    requires Arranged(rules) && i < |Enabled(rules)| && Enabled(rules)[i].matcher(ctx)
    requires forall j :: 0 <= j < i ==> !Enabled(rules)[j].matcher(ctx)
    ensures Decides(ToMap(rules), Enabled(rules)[i], ctx)
  {
    hide ToMap, Before, Enabled;
    EnabledContents(rules);
    InMap(rules);
    var enabled, m := Enabled(rules), ToMap(rules);
    assert enabled[i] in rules;
    forall n | n in m && Applies(m[n], ctx)
      ensures m[n] == enabled[i] || Before(enabled[i], m[n])
    {
      var k :| 0 <= k < |rules| && rules[k].rule.name == n;
      assert m[n] in enabled;
      var j :| 0 <= j < |enabled| && enabled[j] == m[n];
    }
  }

  lemma NoMatchNoRule(rules: seq<CompiledRule>, ctx: MatchContext)
    requires Arranged(rules)
    requires forall j :: 0 <= j < |Enabled(rules)| ==> !Enabled(rules)[j].matcher(ctx)
    ensures forall n :: n in ToMap(rules) ==> !Applies(ToMap(rules)[n], ctx)
  {
    hide ToMap, Enabled;
    EnabledContents(rules);
    InMap(rules);
    var m := ToMap(rules);
    forall n | n in m
      ensures !Applies(m[n], ctx)
    {
      var k :| 0 <= k < |rules| && rules[k].rule.name == n;
      if m[n].rule.enabled {
        assert m[n] in Enabled(rules);
      }
    }
  }

  class Evaluator {
    const registry: Registry?
    const defaultAction: string

    constructor (registry: Registry?, defaultAction: string)
      ensures this.registry == registry && this.defaultAction == defaultAction
    {
      this.registry, this.defaultAction := registry, defaultAction;
    }

    /** Returns the result of the rule that decides, whatever order the rules were added
        in; the default action when no enabled rule matches. */
    method Evaluate(ctx: MatchContext) returns (r: RuleResult)
      requires registry != null ==> registry.Valid()
      ensures r.matched ==> registry != null && exists c: CompiledRule ::
        && c.rule.action.Some? && Decides(registry.Model(), c, ctx)
        && r.rule == Some(c.rule) && r.action == c.rule.action.value.kind
        && r.message == c.rule.action.value.message && r.reference == c.rule.action.value.reference
      ensures r.matched ==> registry != null && r.rule.Some? && r.rule.value.enabled
                            && forall n :: n in registry.Model() && Applies(registry.Model()[n], ctx) ==>
                              var (best, other) := (r.rule.value, registry.Model()[n].rule);
                              && other.priority <= best.priority
                              && (other.priority == best.priority ==>
                                    other.name == best.name || NameBefore(best.name, other.name))
      ensures !r.matched ==> r == RuleResult(false, None, defaultAction, "", "")
      ensures !r.matched && registry != null ==> forall n :: n in registry.Model() ==>
                !Applies(registry.Model()[n], ctx)
    {
      hide Enabled, ToMap, Ordered, Before, NameBefore;
      if registry == null {
        return RuleResult(false, None, defaultAction, "", "");
      }
      MapNames(registry.rules);
      EnabledContents(registry.rules);
      var rules := registry.GetEnabled();
      for i := 0 to |rules|
        invariant forall j :: 0 <= j < i ==> !rules[j].matcher(ctx)
      {
        if rules[i].matcher(ctx) {
          FirstMatchDecides(registry.rules, i, ctx);
          DecidesIffHighest(registry.Model(), rules[i], ctx);
          assert rules[i] in registry.rules;
          return ResultOf(rules[i]);
        }
      }
      NoMatchNoRule(registry.rules, ctx);
      return RuleResult(false, None, defaultAction, "", "");
    }

    /** All matching enabled rules, in the order of the registry. */
    method EvaluateAll(ctx: MatchContext) returns (results: seq<RuleResult>)
      requires registry != null ==> registry.Valid()
      ensures registry == null ==> results == []
      ensures registry != null ==>
        && |results| == |Matching(Enabled(registry.rules), ctx)|
        && forall i :: 0 <= i < |results| ==>
             var c := Matching(Enabled(registry.rules), ctx)[i];
             c.rule.action.Some?
             && results[i] == RuleResult(true, Some(c.rule), c.rule.action.value.kind, c.rule.action.value.message,
                                         c.rule.action.value.reference)
    {
      hide Ordered, Before;
      results := [];
      if registry == null {
        return;
      }
      EnabledContents(registry.rules);
      var rules := registry.GetEnabled();
      hide Enabled, Matching;
      MatchingNone(ctx);
      for k := 0 to |rules|
        invariant |results| == |Matching(rules[..k], ctx)|
        invariant forall i :: 0 <= i < |results| ==>
          var c := Matching(rules[..k], ctx)[i]; c.rule.action.Some? && results[i] == ResultOf(c)
      {
        MatchingOneMore(rules, k, ctx);
        if rules[k].matcher(ctx) {
          assert rules[k] in registry.rules;
          results := results + [ResultOf(rules[k])];
        }
      }
      assert rules[..|rules|] == rules;
    }
  }

  function Matching(rules: seq<CompiledRule>, ctx: MatchContext): seq<CompiledRule> {
    if rules == [] then [] else
      var last := rules[|rules| - 1];
      Matching(rules[..|rules| - 1], ctx) + if last.matcher(ctx) then [last] else []
  }

  lemma MatchingNone(ctx: MatchContext)
    ensures Matching([], ctx) == []
  {
  }

  lemma MatchingOneMore(rules: seq<CompiledRule>, k: nat, ctx: MatchContext)
    requires k < |rules|
    ensures Matching(rules[..k + 1], ctx) ==
            Matching(rules[..k], ctx) + if rules[k].matcher(ctx) then [rules[k]] else []
  {
    assert rules[..k + 1][..k] == rules[..k];
  }

  lemma {:induction false} MatchingContents(rules: seq<CompiledRule>, ctx: MatchContext)
    requires Ordered(rules)
    ensures Ordered(Matching(rules, ctx))
    ensures forall c :: c in Matching(rules, ctx) <==> c in rules && c.matcher(ctx)
  {
    if rules == [] {
      NothingIsArranged();
    } else {
      hide Ordered;
      var n := |rules| - 1;
      FirstOrdered(rules);
      MatchingContents(rules[..n], ctx);
      PickedOrdered(Matching(rules[..n], ctx), rules, n);
    }
  }

  /** The deciding rule is the head of all matching rules, which are exactly those that
      apply, each before the next. */
  lemma AllMatchesInOrder(rules: seq<CompiledRule>, ctx: MatchContext)
    requires Arranged(rules)
    ensures var all := Matching(Enabled(rules), ctx);
            && Ordered(all)
            && (forall c :: c in all <==> c in rules && Applies(c, ctx))
            && (all != [] ==> Decides(ToMap(rules), all[0], ctx))
  {
    hide ToMap, Before, Matching, Enabled;
    var all := Matching(Enabled(rules), ctx);
    EnabledContents(rules);
    MatchingContents(Enabled(rules), ctx);
    InMap(rules);
    if all != [] {
      var m := ToMap(rules);
      assert all[0] in rules;
      forall n | n in m && Applies(m[n], ctx)
        ensures m[n] == all[0] || Before(all[0], m[n])
      {
        var k :| 0 <= k < |rules| && rules[k].rule.name == n;
        assert m[n] in all;
        var j :| 0 <= j < |all| && all[j] == m[n];
      }
    }
  }

  /** Two registries that map the same names to the same rules hold the same array and
      decide alike, whatever was added, replaced, merged or removed on the way. */
  lemma SameMapSameArray(a: Registry, b: Registry)
    requires a.Valid() && b.Valid() && a.Model() == b.Model()
    ensures a.rules == b.rules
  {
    hide ToMap, Before;
    ListsItsMap(a.rules);
    ListsItsMap(b.rules);
    ArrangementIsUnique(a.rules, b.rules, a.Model());
  }

  /** At most one rule decides. */
  lemma DecisionIsUnique(m: Rules, c: CompiledRule, d: CompiledRule, ctx: MatchContext)
    requires Decides(m, c, ctx) && Decides(m, d, ctx)
    ensures c == d
  {
    hide Before;
    BeforeTotal(c, d);
  }
}
