/** The registry of compiled rules: an ordered array that refines a map from names. */
module RuleRegistry {
  import opened Wrappers
  import opened Collections

  // ----- rules -----

  datatype RuleAction = RuleAction(kind: string, message: string, reference: string)

  /** `conditions` stands for the match conditions, whose pattern language is not modelled. */
  datatype Rule = Rule(
    name: string,
    description: string,
    enabled: bool,
    priority: int,
    conditions: Option<string>,
    action: Option<RuleAction>)

  datatype MatchContext = MatchContext(validatorType: string, command: string, file: string, content: string)

  type Matcher = MatchContext -> bool

  /** Compiles match conditions: an error, no matcher when there are none, or a matcher. */
  type Builder = Option<string> -> Result<Option<Matcher>, string>

  datatype CompiledRule = CompiledRule(rule: Rule, matcher: Matcher)

  function Compiled(build: Builder, rule: Rule): Result<CompiledRule, string> {
    match build(rule.conditions)
    case Err(e) => Err("failed to compile rule matcher: " + e)
    case Ok(None) => Ok(CompiledRule(rule, _ => true))
    case Ok(Some(m)) => Ok(CompiledRule(rule, m))
  }

  // ----- the order of rules -----

  predicate LexLess(a: string, b: string) {
    b != "" && (a == "" || a[0] < b[0] || (a[0] == b[0] && LexLess(a[1..], b[1..])))
  }

  lemma {:induction false} LexTotal(a: string, b: string)
    ensures LexLess(a, b) || LexLess(b, a) || a == b
    ensures !(LexLess(a, b) && LexLess(b, a))
  {
    if a != "" && b != "" && a[0] == b[0] {
      LexTotal(a[1..], b[1..]);
      assert a == [a[0]] + a[1..] && b == [b[0]] + b[1..];
    }
  }

  lemma {:induction false} LexTransitive(a: string, b: string, c: string)
    requires LexLess(a, b) && LexLess(b, c)
    ensures LexLess(a, c)
  {
    if a != "" && a[0] == b[0] == c[0] {
      LexTransitive(a[1..], b[1..], c[1..]);
    }
  }

  /** `a` is a proper beginning of `b`, or smaller where they first differ. */
  ghost predicate NameBefore(a: string, b: string) {
    a < b || exists k: nat :: DiffersAt(a, b, k)
  }

  predicate DiffersAt(a: string, b: string, k: nat) {
    k < |a| && k < |b| && a[..k] == b[..k] && a[k] < b[k]
  }

  lemma {:induction false} LexLessIff(a: string, b: string)
    ensures LexLess(a, b) <==> NameBefore(a, b)
  {
    if a != "" && b != "" && a[0] == b[0] {
      LexLessIff(a[1..], b[1..]);
      TailsBefore(a, b);
    } else if a != "" && b != "" {
      assert DiffersAt(a, b, 0) <==> a[0] < b[0];
      forall k: nat | k > 0
        ensures !DiffersAt(a, b, k)
      {
        assert k <= |a| && k <= |b| ==> a[..k][0] == a[0] && b[..k][0] == b[0];
      }
    }
  }

  lemma TailsBefore(a: string, b: string)
    requires a != "" && b != "" && a[0] == b[0]
    ensures NameBefore(a, b) <==> NameBefore(a[1..], b[1..])
  {
    assert a == [a[0]] + a[1..] && b == [b[0]] + b[1..];
    forall k: nat
      ensures DiffersAt(a, b, k + 1) <==> DiffersAt(a[1..], b[1..], k)
    {
      assert k < |a| && k < |b| ==> a[..k + 1] == [a[0]] + a[1..][..k] && b[..k + 1] == [b[0]] + b[1..][..k];
      assert k < |a| && k < |b| && a[..k + 1] == b[..k + 1] ==> a[..k + 1][1..] == b[..k + 1][1..];
    }
    if k: nat :| DiffersAt(a, b, k) {
      assert k > 0;
      assert DiffersAt(a[1..], b[1..], k - 1) by {
        assert DiffersAt(a, b, k - 1 + 1);
      }
    }
  }

  /** Higher priority first, then by name. */
  predicate Before(a: CompiledRule, b: CompiledRule) {
    a.rule.priority > b.rule.priority || (a.rule.priority == b.rule.priority && LexLess(a.rule.name, b.rule.name))
  }

  /** One rule comes before another exactly when its priority is greater, or the same and its
      name is the lesser. */
  lemma BeforeIff(a: CompiledRule, b: CompiledRule)
    ensures Before(a, b) <==>
              && a.rule.priority >= b.rule.priority
              && (a.rule.priority == b.rule.priority ==> NameBefore(a.rule.name, b.rule.name))
  {
    LexLessIff(a.rule.name, b.rule.name);
  }

  lemma BeforeTotal(a: CompiledRule, b: CompiledRule)
    ensures a.rule.name != b.rule.name ==> Before(a, b) || Before(b, a)
    ensures !(Before(a, b) && Before(b, a))
  {
    LexTotal(a.rule.name, b.rule.name);
  }

  lemma BeforeTransitive(a: CompiledRule, b: CompiledRule, c: CompiledRule)
    requires Before(a, b) && Before(b, c)
    ensures Before(a, c)
  {
    if a.rule.priority == b.rule.priority == c.rule.priority {
      LexTransitive(a.rule.name, b.rule.name, c.rule.name);
    }
  }

  predicate Ordered(rules: seq<CompiledRule>) {
    SortedBy(rules, Before)
  }

  /** In an ordered array priorities never rise, and names rise where they are equal. */
  lemma OrderedIff(rules: seq<CompiledRule>)
    ensures Ordered(rules) <==>
              forall i, j :: 0 <= i < j < |rules| ==>
                && rules[i].rule.priority >= rules[j].rule.priority
                && (rules[i].rule.priority == rules[j].rule.priority ==>
                      NameBefore(rules[i].rule.name, rules[j].rule.name))
  {
    hide Before, NameBefore;
    forall i, j | 0 <= i < j < |rules|
      ensures Before(rules[i], rules[j]) <==>
                && rules[i].rule.priority >= rules[j].rule.priority
                && (rules[i].rule.priority == rules[j].rule.priority ==>
                      NameBefore(rules[i].rule.name, rules[j].rule.name))
    {
      BeforeIff(rules[i], rules[j]);
    }
  }

  predicate Distinct(rules: seq<CompiledRule>) {
    forall i, j :: 0 <= i < j < |rules| ==> rules[i].rule.name != rules[j].rule.name
  }

  /** What a rule needs to be installed. */
  predicate Usable(c: CompiledRule) {
    c.rule.name != "" && c.rule.action.Some?
  }

  predicate AllUsable(rules: seq<CompiledRule>) {
    forall i :: 0 <= i < |rules| ==> Usable(rules[i])
  }

  /** What every registry's array satisfies. */
  predicate Arranged(rules: seq<CompiledRule>) {
    Ordered(rules) && Distinct(rules) && AllUsable(rules)
  }

  // ----- the map behind the array -----

  type Rules = map<string, CompiledRule>

  /** From names to rules; of two rules with the same name the later one counts. */
  ghost function ToMap(rules: seq<CompiledRule>): Rules {
    if rules == [] then map[] else
      var last := rules[|rules| - 1];
      ToMap(rules[..|rules| - 1])[last.rule.name := last]
  }

  lemma {:induction false} InMap(rules: seq<CompiledRule>)
    requires Distinct(rules)
    ensures forall i :: 0 <= i < |rules| ==>
              rules[i].rule.name in ToMap(rules) && ToMap(rules)[rules[i].rule.name] == rules[i]
    ensures forall n :: n in ToMap(rules) ==> exists i :: 0 <= i < |rules| && rules[i].rule.name == n
  {
    if rules != [] {
      var k := |rules| - 1;
      var before := rules[..k];
      assert forall i :: 0 <= i < k ==> before[i] == rules[i];
      InMap(before);
      MapLast(rules);
      hide ToMap;
      forall i | 0 <= i < |rules|
        ensures rules[i].rule.name in ToMap(rules) && ToMap(rules)[rules[i].rule.name] == rules[i]
      {
        if i < k {
          assert before[i].rule.name in ToMap(before);
        }
      }
      forall n | n in ToMap(rules)
        ensures exists i :: 0 <= i < |rules| && rules[i].rule.name == n
      {
        if n != rules[k].rule.name {
          var i :| 0 <= i < k && before[i].rule.name == n;
          assert rules[i].rule.name == n;
        }
      }
    }
  }

  lemma MapLast(rules: seq<CompiledRule>)
    requires rules != []
    ensures var last := rules[|rules| - 1];
            ToMap(rules) == ToMap(rules[..|rules| - 1])[last.rule.name := last]
  {
  }

  /** `rules` are exactly the entries of `m`. */
  ghost predicate Lists(rules: seq<CompiledRule>, m: Rules) {
    && (forall i :: 0 <= i < |rules| ==> rules[i].rule.name in m && m[rules[i].rule.name] == rules[i])
    && (forall n :: n in m ==> exists i :: 0 <= i < |rules| && rules[i].rule.name == n)
  }

  lemma ListsItsMap(rules: seq<CompiledRule>)
    requires Distinct(rules)
    ensures Lists(rules, ToMap(rules))
  {
    hide ToMap;
    InMap(rules);
  }

  lemma ListedMapIs(rules: seq<CompiledRule>, m: Rules)
    requires Distinct(rules) && Lists(rules, m)
    ensures ToMap(rules) == m
  {
    hide ToMap;
    InMap(rules);
    assert forall n :: n in m ==> n in ToMap(rules) && ToMap(rules)[n] == m[n];
    assert forall n :: n in ToMap(rules) ==> n in m;
  }

  lemma FirstIsLeast(rules: seq<CompiledRule>, m: Rules, n: string)
    requires Arranged(rules) && rules != [] && Lists(rules, m) && n in m
    ensures m[n] == rules[0] || Before(rules[0], m[n])
  {
    var i :| 0 <= i < |rules| && rules[i].rule.name == n;
  }

  lemma TailLists(rules: seq<CompiledRule>, m: Rules)
    requires Arranged(rules) && rules != [] && Lists(rules, m)
    ensures Arranged(rules[1..]) && Lists(rules[1..], m - {rules[0].rule.name})
  {
    var rest := rules[1..];
    forall n | n in m - {rules[0].rule.name}
      ensures exists i :: 0 <= i < |rest| && rest[i].rule.name == n
    {
      var i :| 0 <= i < |rules| && rules[i].rule.name == n;
      assert rest[i - 1].rule.name == n;
    }
  }

  /** There is only one arrangement of a map: insertion order is irrelevant. */
  lemma {:induction false} ArrangementIsUnique(a: seq<CompiledRule>, b: seq<CompiledRule>, m: Rules)
    requires Arranged(a) && Arranged(b) && Lists(a, m) && Lists(b, m)
    ensures a == b
  {
    hide Before, Arranged, Lists;
    if a == [] || b == [] {
      EmptyListing(a, m);
      EmptyListing(b, m);
    } else {
      HeadIn(a, m);
      HeadIn(b, m);
      FirstIsLeast(a, m, b[0].rule.name);
      FirstIsLeast(b, m, a[0].rule.name);
      BeforeTotal(a[0], b[0]);
      TailLists(a, m);
      TailLists(b, m);
      ArrangementIsUnique(a[1..], b[1..], m - {a[0].rule.name});
      assert a == [a[0]] + a[1..] && b == [b[0]] + b[1..];
    }
  }

  lemma EmptyListing(rules: seq<CompiledRule>, m: Rules)
    requires Lists(rules, m)
    ensures rules == [] <==> m == map[]
  {
    if rules != [] {
      assert rules[0].rule.name in m;
    }
  }

  lemma HeadIn(rules: seq<CompiledRule>, m: Rules)
    requires rules != [] && Lists(rules, m)
    ensures rules[0].rule.name in m && m[rules[0].rule.name] == rules[0]
  {
  }

  // ----- sorting -----

  predicate Absent(name: string, rules: seq<CompiledRule>) {
    forall i :: 0 <= i < |rules| ==> rules[i].rule.name != name
  }

  lemma InsertedArranged(sorted: seq<CompiledRule>, r: CompiledRule)
    requires Arranged(sorted) && Absent(r.rule.name, sorted) && Usable(r)
    ensures Arranged(Inserted(sorted, r, Before))
  {
    hide Before;
    forall i | 0 <= i < |sorted|
      ensures Before(r, sorted[i]) || Before(sorted[i], r)
    {
      BeforeTotal(r, sorted[i]);
    }
    forall i, j | 0 <= i < j < |sorted| && Before(r, sorted[i])
      ensures Before(r, sorted[j])
    {
      BeforeTransitive(r, sorted[i], sorted[j]);
    }
    InsertedSorted(sorted, r, Before);
    InsertedUsable(sorted, r);
    InsertedDistinct(sorted, r);
  }

  lemma InsertedUsable(sorted: seq<CompiledRule>, r: CompiledRule)
    requires AllUsable(sorted) && Usable(r)
    ensures AllUsable(Inserted(sorted, r, Before))
  {
    InsertedContents(sorted, r, Before);
    forall i | 0 <= i < |Inserted(sorted, r, Before)|
      ensures Usable(Inserted(sorted, r, Before)[i])
    {
      assert Inserted(sorted, r, Before)[i] in Inserted(sorted, r, Before);
    }
  }

  lemma {:induction false} InsertedDistinct(sorted: seq<CompiledRule>, r: CompiledRule)
    requires Distinct(sorted) && Absent(r.rule.name, sorted)
    ensures Distinct(Inserted(sorted, r, Before))
  {
    hide Before;
    if sorted != [] && !Before(r, sorted[0]) {
      var rest := Inserted(sorted[1..], r, Before);
      InsertedDistinct(sorted[1..], r);
      InsertedContents(sorted[1..], r, Before);
      forall i | 0 <= i < |rest|
        ensures rest[i].rule.name != sorted[0].rule.name
      {
        assert rest[i] in rest;
      }
    }
  }

  /** Sorting rules with distinct names arranges them and keeps their map. */
  lemma {:induction false} SortedArranged(rules: seq<CompiledRule>)
    requires Distinct(rules) && AllUsable(rules)
    ensures Arranged(Sorted(rules, Before))
  {
    hide Arranged;
    if rules != [] {
      var n := |rules| - 1;
      SortedArranged(rules[..n]);
      SortedContents(rules[..n], Before);
      var sorted := Sorted(rules[..n], Before);
      forall i | 0 <= i < |sorted|
        ensures sorted[i].rule.name != rules[n].rule.name
      {
        assert sorted[i] in sorted;
        assert sorted[i] in rules[..n];
      }
      InsertedArranged(sorted, rules[n]);
    } else {
      assert Arranged([]) by { NothingIsArranged(); }
    }
  }

  lemma NothingIsArranged()
    ensures Arranged([])
  {
  }

  lemma SortedKeepsMap(rules: seq<CompiledRule>)
    requires Distinct(rules) && AllUsable(rules)
    ensures ToMap(Sorted(rules, Before)) == ToMap(rules)
  {
    hide ToMap, Sorted, Ordered;
    ListsItsMap(rules);
    SortedContents(rules, Before);
    SortedArranged(rules);
    var sorted, m := Sorted(rules, Before), ToMap(rules);
    forall i | 0 <= i < |sorted|
      ensures sorted[i].rule.name in m && m[sorted[i].rule.name] == sorted[i]
    {
      assert sorted[i] in rules;
    }
    forall n | n in m
      ensures exists i :: 0 <= i < |sorted| && sorted[i].rule.name == n
    {
      var j :| 0 <= j < |rules| && rules[j].rule.name == n;
      assert rules[j] in sorted;
    }
    ListedMapIs(sorted, m);
  }
}
