/** What the writer takes out of the overrides: a value that all variants share is written once. */
module WriterMinimality {
  import opened Entities
  import opened Listings
  import opened ConfigDefinitions
  import opened ConfigWriter
  import opened WriterLoader

  // ---------------------------------------------------------------------------
  // One level of factoring
  // ---------------------------------------------------------------------------

  /** All variants agree on name, template and effective skip, and all have every parameter of `c` with its value. */
  ghost predicate SharesAll(configs: seq<Variant>, c: Variant) {
    && (forall d :: d in configs ==>
          && d.definition.name == c.definition.name
          && d.definition.template == c.definition.template
          && Effective(d.definition.skip) == Effective(c.definition.skip))
    && forall k, d :: k in c.definition.parameters && d in configs ==>
         k in d.definition.parameters && d.definition.parameters[k] == c.definition.parameters[k]
  }

  /** `x` has no name, template, skip or parameter that the base has. */
  predicate RepeatsNothing(base: Definition, x: Definition) {
    && (base.name.Some? ==> x.name.None?)
    && (base.template != "" ==> x.template == "")
    && (base.skip.Some? ==> x.skip.None?)
    && forall k :: k in base.parameters ==> k !in x.parameters
  }

  /** Beside a base an override repeats nothing of it. */
  lemma OverrideRepeatsNothing(configs: seq<Variant>, c: Variant, x: Definition)
    requires c in configs && BaseOf(configs).Some? && OverrideOf(configs, c.definition) == Some(x)
    ensures RepeatsNothing(BaseOf(configs).value, x)
  {
  }

  /** A variant leaves no override exactly when there is a base and the variant shares all it has. */
  lemma NoOverrideIff(configs: seq<Variant>, c: Variant)
    requires c in configs && |configs| > 1
    ensures OverrideOf(configs, c.definition) == None <==> BaseOf(configs).Some? && SharesAll(configs, c)
  {
    assert configs[0] in configs;
    var check, shared := Check(configs), Shared(configs);
    assert check.shareName <==> forall d :: d in configs ==> d.definition.name == c.definition.name;
    assert check.shareTemplate <==> forall d :: d in configs ==> d.definition.template == c.definition.template;
    assert check.shareSkip <==>
      forall d :: d in configs ==> Effective(d.definition.skip) == Effective(c.definition.skip);
    forall k | k in c.definition.parameters
      ensures k in shared <==> SharedParameter(configs, k, c.definition.parameters[k])
    {
      assert k in shared ==> SharedParameter(configs, k, shared[k]);
    }
  }

  /** Beside a base an override sets the skip only when the variants disagree on the effective one. */
  lemma OverrideSkip(configs: seq<Variant>, c: Variant, x: Definition)
    requires c in configs && BaseOf(configs).Some? && OverrideOf(configs, c.definition) == Some(x)
    ensures x.skip.Some? ==> x.skip == c.definition.skip
    ensures x.skip.Some? ==> exists d :: d in configs && Effective(d.definition.skip) != Effective(c.definition.skip)
  {
    assert configs[0] in configs;
  }

  /** What an override sets: what its variant has and not all variants do. */
  lemma OverrideSets(configs: seq<Variant>, c: Variant, p: Trait)
    requires c in configs && IsShareable(p)
    ensures var o := OverrideOf(configs, c.definition);
      (o.Some? && p(o.value)) <==> p(c.definition) && !AllHave(configs, p)
  {
    if |configs| == 1 {
      assert configs[0] == c;
    } else {
      assert configs[0] in configs;
      if SharesNothing(Check(configs), Shared(configs)) {
        BaseHasIff(configs, p);
        EmptyHasNothing(p);
      } else {
        ReducedSets(configs, c, p);
      }
    }
  }

  lemma EmptyHasNothing(p: Trait)
    requires IsShareable(p)
    ensures !p(EMPTY)
  {
  }

  lemma ReducedSets(configs: seq<Variant>, c: Variant, p: Trait)
    requires c in configs && |configs| > 1 && IsShareable(p)
    requires !SharesNothing(Check(configs), Shared(configs))
    ensures var o := OverrideOf(configs, c.definition);
      (o.Some? && p(o.value)) <==> p(c.definition) && !AllHave(configs, p)
  {
    assert configs[0] in configs;
    var shared := Shared(configs);
    if k, val :| p == WithParameter(k, val) {
      assert SharedParameter(configs, k, val) ==> k in shared;
      assert k in shared ==> SharedParameter(configs, k, shared[k]);
    }
  }

  // ---------------------------------------------------------------------------
  // Environment overrides
  // ---------------------------------------------------------------------------

  ghost predicate HasOverride(overrides: seq<Override>, key: string) {
    exists d :: Override(key, d) in overrides
  }

  /** Some override for the key has this. */
  ghost predicate OverrideHas(overrides: seq<Override>, key: string, p: Trait) {
    exists d :: Override(key, d) in overrides && p(d)
  }

  lemma GroupsInOrder(configs: seq<Variant>, order: seq<string>)
    requires Lists(order, GroupNames(configs))
    ensures forall c :: c in configs ==> c.group in order
  {
    forall c | c in configs ensures c.group in order {
      assert c.group in GroupNames(configs);
    }
  }

  /** The override for an environment sets what its variant has and some variant of the group has not. */
  lemma EnvironmentOverrideSets(configs: seq<Variant>, top: TopLevel, v: Variant, p: Trait)
    requires v in configs && DistinctEnvironments(configs) && IsFactored(configs, top) && IsShareable(p)
    ensures OverrideHas(top.environmentOverrides, v.environment, p) <==>
      p(v.definition) && exists c :: c in configs && c.group == v.group && !p(c.definition)
  {
    var order :| FactoredIn(configs, order, top);
    var members := Members(configs, v.group);
    GroupsInOrder(configs, order);
    forall c ensures c in members <==> c in configs && c.group == v.group {
      MembersOf(configs, v.group, c);
    }
    OverrideSets(members, v, p);
    forall x ensures Override(v.environment, x) in top.environmentOverrides <==>
      OverrideOf(members, v.definition) == Some(x)
    {
      EnvironmentOverrideIs(configs, order, v, x);
    }
  }

  /** An environment has no override exactly when its variant is the only one of its group, or the group has a base
      and its variants agree on name, template and effective skip, and on every parameter of this one. */
  lemma NoEnvironmentOverrideIff(configs: seq<Variant>, top: TopLevel, v: Variant)
    requires v in configs && DistinctEnvironments(configs) && IsFactored(configs, top)
    ensures !HasOverride(top.environmentOverrides, v.environment) <==>
      |Members(configs, v.group)| == 1 || (HasBase(configs, v.group) && SharesAll(Members(configs, v.group), v))
  {
    var order :| FactoredIn(configs, order, top);
    var members := Members(configs, v.group);
    GroupsInOrder(configs, order);
    MembersOf(configs, v.group, v);
    HasBaseIff(configs, v.group);
    if |members| > 1 {
      NoOverrideIff(members, v);
    }
    var o := OverrideOf(members, v.definition);
    if o.Some? {
      EnvironmentOverrideIs(configs, order, v, o.value);
    }
    if x :| Override(v.environment, x) in top.environmentOverrides {
      EnvironmentOverrideIs(configs, order, v, x);
    }
  }

  /** In a group with a base an override sets the skip only when the variants disagree on the effective one. */
  lemma EnvironmentOverrideSkip(configs: seq<Variant>, top: TopLevel, v: Variant, x: Definition)
    requires v in configs && DistinctEnvironments(configs) && IsFactored(configs, top)
    requires HasBase(configs, v.group) && Override(v.environment, x) in top.environmentOverrides
    ensures x.skip.Some? ==> x.skip == v.definition.skip
    ensures x.skip.Some? ==>
      exists c :: c in configs && c.group == v.group && Effective(c.definition.skip) != Effective(v.definition.skip)
  {
    var order :| FactoredIn(configs, order, top);
    var members := Members(configs, v.group);
    GroupsInOrder(configs, order);
    EnvironmentOverrideIs(configs, order, v, x);
    HasBaseIff(configs, v.group);
    MembersOf(configs, v.group, v);
    OverrideSkip(members, v, x);
    if x.skip.Some? {
      var c :| c in members && Effective(c.definition.skip) != Effective(v.definition.skip);
      MembersOf(configs, v.group, c);
    }
  }

  // ---------------------------------------------------------------------------
  // Group overrides
  // ---------------------------------------------------------------------------

  /** No group override has a name, template, skip or parameter that the common base has. */
  lemma GroupOverrideRepeatsNothing(configs: seq<Variant>, top: TopLevel, o: Override)
    requires IsFactored(configs, top) && o in top.groupOverrides
    ensures RepeatsNothing(top.config, o.definition)
  {
    var order :| FactoredIn(configs, order, top);
    var bases := GroupBases(configs, order);
    var reduced := OverridesOf(bases, |bases|);
    InByGroup(reduced, o.key, o.definition);
    var x :| x in reduced && x.group == o.key && x.definition == o.definition;
    OverrideMembers(bases, |bases|, x);
    var i :| 0 <= i < |bases| && Leaves(bases, bases[i], x);
    if BaseOf(bases).Some? {
      OverrideRepeatsNothing(bases, bases[i], x.definition);
    }
  }

  /** The override for a group sets what all its variants have and some variant of a group with a base has not. */
  lemma GroupOverrideSets(configs: seq<Variant>, top: TopLevel, g: string, p: Trait)
    requires g in GroupNames(configs) && IsFactored(configs, top) && IsShareable(p)
    ensures OverrideHas(top.groupOverrides, g, p) <==>
      && HasBase(configs, g)
      && (forall c :: c in configs && c.group == g ==> p(c.definition))
      && exists c :: Based(configs, c) && !p(c.definition)
  {
    var order :| FactoredIn(configs, order, top);
    var bases := GroupBases(configs, order);
    HasBaseIff(configs, g);
    forall x ensures Override(g, x) in top.groupOverrides <==> GroupOverride(configs, order, g) == Some(x) {
      GroupOverrideIs(configs, order, g, x);
    }
    if HasBase(configs, g) {
      var b := Variant(BaseOf(Members(configs, g)).value, g, "");
      BaseMembers(configs, order, b);
      OverrideSets(bases, b, p);
      GroupBaseHasIff(configs, g, p);
      CommonBaseHasIff(configs, order, p);
      BaseHasIff(bases, p);
      var c :| c in configs && c.group == g;
      assert Based(configs, c);
    }
  }

  /** Nothing but the overrides for the environments and the groups of the variants is written. */
  lemma NoOtherOverrides(configs: seq<Variant>, top: TopLevel)
    requires IsFactored(configs, top)
    ensures forall o :: o in top.environmentOverrides ==> exists c :: c in configs && c.environment == o.key
    ensures forall o :: o in top.groupOverrides ==> o.key in GroupNames(configs)
  {
    var order :| FactoredIn(configs, order, top);
    var bases := GroupBases(configs, order);
    forall o | o in top.environmentOverrides ensures exists c :: c in configs && c.environment == o.key {
      InByEnvironment(EnvironmentOverrides(configs, order), o.key, o.definition);
      var x :| x in EnvironmentOverrides(configs, order) && x.environment == o.key;
      EnvironmentMembers(configs, order, x);
    }
    forall o | o in top.groupOverrides ensures o.key in GroupNames(configs) {
      InByGroup(OverridesOf(bases, |bases|), o.key, o.definition);
      var x :| x in OverridesOf(bases, |bases|) && x.group == o.key;
      OverrideMembers(bases, |bases|, x);
      var i :| 0 <= i < |bases| && Leaves(bases, bases[i], x);
      BaseMembers(configs, order, bases[i]);
    }
  }

  /** All variants of the group have this. */
  ghost predicate GroupHas(configs: seq<Variant>, g: string, p: Trait) {
    forall c :: c in configs && c.group == g ==> p(c.definition)
  }

  /** If all variants of some group with a base have this, all variants of all such groups do. */
  ghost predicate BasesAgree(configs: seq<Variant>, p: Trait) {
    (exists c :: Based(configs, c) && GroupHas(configs, c.group, p)) ==> Common(configs, p)
  }

  /** A group with a base has no override exactly when it is the only one, or something is common and the groups
      with a base agree on what they say about name, template and skip, and on every parameter of this one. */
  lemma NoGroupOverrideIff(configs: seq<Variant>, top: TopLevel, g: string)
    requires g in GroupNames(configs) && HasBase(configs, g) && IsFactored(configs, top)
    ensures !HasOverride(top.groupOverrides, g) <==>
      || (forall c :: Based(configs, c) ==> c.group == g)
      || (&& top.config != EMPTY
          && (forall n :: BasesAgree(configs, Named(n)))
          && (forall t :: t != "" ==> BasesAgree(configs, WithTemplate(t)))
          && BasesAgree(configs, Skipped())
          && forall k, val :: GroupHas(configs, g, WithParameter(k, val)) ==> Common(configs, WithParameter(k, val)))
  {
    var order :| FactoredIn(configs, order, top);
    var bases := GroupBases(configs, order);
    HasBaseIff(configs, g);
    var b := Variant(BaseOf(Members(configs, g)).value, g, "");
    BaseMembers(configs, order, b);
    var o := GroupOverride(configs, order, g);
    if o.Some? {
      GroupOverrideIs(configs, order, g, o.value);
    }
    if x :| Override(g, x) in top.groupOverrides {
      GroupOverrideIs(configs, order, g, x);
    }
    OneBaseIff(configs, order, g);
    if |bases| > 1 {
      NoOverrideIff(bases, b);
      SomethingCommonIff(bases);
      SharesAllIff(configs, order, g, b);
    }
  }

  lemma SomethingCommonIff(bases: seq<Variant>)
    requires |bases| > 1
    ensures BaseOf(bases).Some? <==> BaseOrEmpty(bases) != EMPTY
  {
    if BaseOf(bases).Some? {
      assert |Shared(bases)| == 0 <==> Shared(bases) == map[];
    }
  }

  lemma {:induction false} BasesDistinct(configs: seq<Variant>, order: seq<string>)
    requires NoDuplicates(order)
    ensures forall i, j :: 0 <= i < j < |GroupBases(configs, order)| ==>
      GroupBases(configs, order)[i].group != GroupBases(configs, order)[j].group
    decreases |order|
  {
    if order != [] {
      var front, g := order[..|order| - 1], order[|order| - 1];
      BasesDistinct(configs, front);
      var before := GroupBases(configs, front);
      forall i | 0 <= i < |before| ensures before[i].group != g {
        assert before[i] in before;
        BaseMembers(configs, front, before[i]);
      }
    }
  }

  lemma OneBaseIff(configs: seq<Variant>, order: seq<string>, g: string)
    requires Lists(order, GroupNames(configs)) && g in order && HasBase(configs, g)
    ensures GroupBases(configs, order) != []
    ensures |GroupBases(configs, order)| == 1 <==> forall c :: Based(configs, c) ==> c.group == g
  {
    var bases := GroupBases(configs, order);
    BasesDistinct(configs, order);
    HasBaseIff(configs, g);
    BaseMembers(configs, order, Variant(BaseOf(Members(configs, g)).value, g, ""));
    forall c | Based(configs, c) ensures exists b :: b in bases && b.group == c.group {
      assert c.group in GroupNames(configs);
      HasBaseIff(configs, c.group);
      BaseMembers(configs, order, Variant(BaseOf(Members(configs, c.group)).value, c.group, ""));
    }
    if |bases| > 1 {
      var b := if bases[0].group == g then bases[1] else bases[0];
      assert b in bases && b.group != g;
      BaseMembers(configs, order, b);
      HasBaseIff(configs, b.group);
      var c :| c in configs && c.group == b.group;
      assert Based(configs, c);
    }
  }

  /** Some base has this exactly when all variants of some group with a base do. */
  lemma SomeBaseHasIff(configs: seq<Variant>, order: seq<string>, p: Trait)
    requires Lists(order, GroupNames(configs)) && IsShareable(p)
    ensures (exists b :: b in GroupBases(configs, order) && p(b.definition)) <==>
      exists c :: Based(configs, c) && GroupHas(configs, c.group, p)
  {
    var bases := GroupBases(configs, order);
    if b :| b in bases && p(b.definition) {
      BaseMembers(configs, order, b);
      HasBaseIff(configs, b.group);
      GroupBaseHasIff(configs, b.group, p);
      var c :| c in configs && c.group == b.group;
      assert Based(configs, c);
    }
    if c :| Based(configs, c) && GroupHas(configs, c.group, p) {
      assert c.group in GroupNames(configs);
      HasBaseIff(configs, c.group);
      GroupBaseHasIff(configs, c.group, p);
      BaseMembers(configs, order, Variant(BaseOf(Members(configs, c.group)).value, c.group, ""));
    }
  }

  ghost predicate AllOrNone(bases: seq<Variant>, p: Trait) {
    (exists x :: x in bases && p(x.definition)) ==> AllHave(bases, p)
  }

  /** The bases agree on this exactly when all of them have it or none of them does. */
  lemma BasesAgreeIff(configs: seq<Variant>, order: seq<string>, p: Trait)
    requires Lists(order, GroupNames(configs)) && IsShareable(p)
    ensures BasesAgree(configs, p) <==> AllOrNone(GroupBases(configs, order), p)
  {
    SomeBaseHasIff(configs, order, p);
    CommonBaseHasIff(configs, order, p);
    BaseHasIff(GroupBases(configs, order), p);
  }

  lemma SharesAllIff(configs: seq<Variant>, order: seq<string>, g: string, b: Variant)
    requires Lists(order, GroupNames(configs)) && g in order && HasBase(configs, g)
    requires b in GroupBases(configs, order) && b.group == g && Some(b.definition) == BaseOf(Members(configs, g))
    ensures SharesAll(GroupBases(configs, order), b) <==>
      && (forall n :: BasesAgree(configs, Named(n)))
      && (forall t :: t != "" ==> BasesAgree(configs, WithTemplate(t)))
      && BasesAgree(configs, Skipped())
      && forall k, val :: GroupHas(configs, g, WithParameter(k, val)) ==> Common(configs, WithParameter(k, val))
  {
    var bases := GroupBases(configs, order);
    forall n ensures BasesAgree(configs, Named(n)) <==> AllOrNone(bases, Named(n)) {
      BasesAgreeIff(configs, order, Named(n));
    }
    forall t | t != "" ensures BasesAgree(configs, WithTemplate(t)) <==> AllOrNone(bases, WithTemplate(t)) {
      BasesAgreeIff(configs, order, WithTemplate(t));
    }
    BasesAgreeIff(configs, order, Skipped());
    forall k, val
      ensures GroupHas(configs, g, WithParameter(k, val)) <==> WithParameter(k, val)(b.definition)
      ensures Common(configs, WithParameter(k, val)) <==> AllHave(bases, WithParameter(k, val))
    {
      GroupBaseHasIff(configs, g, WithParameter(k, val));
      CommonBaseHasIff(configs, order, WithParameter(k, val));
      BaseHasIff(bases, WithParameter(k, val));
    }
    NamesAgree(bases, b);
    TemplatesAgree(bases, b);
    SkipsAgree(bases, b);
    ParametersAgree(bases, b);
  }

  lemma SkipsAgree(bases: seq<Variant>, b: Variant)
    requires b in bases
    ensures AllOrNone(bases, Skipped()) <==>
      forall d :: d in bases ==> Effective(d.definition.skip) == Effective(b.definition.skip)
  {
  }

  lemma NamesAgree(bases: seq<Variant>, b: Variant)
    requires b in bases
    ensures (forall n :: AllOrNone(bases, Named(n))) <==>
      forall d :: d in bases ==> d.definition.name == b.definition.name
  {
    if forall n :: AllOrNone(bases, Named(n)) {
      forall d | d in bases ensures d.definition.name == b.definition.name {
        if d.definition.name.Some? {
          assert AllOrNone(bases, Named(d.definition.name.value)) && Named(d.definition.name.value)(d.definition);
        }
        if b.definition.name.Some? {
          assert AllOrNone(bases, Named(b.definition.name.value)) && Named(b.definition.name.value)(b.definition);
        }
      }
    }
  }

  lemma TemplatesAgree(bases: seq<Variant>, b: Variant)
    requires b in bases
    ensures (forall t :: t != "" ==> AllOrNone(bases, WithTemplate(t))) <==>
      forall d :: d in bases ==> d.definition.template == b.definition.template
  {
    if forall t :: t != "" ==> AllOrNone(bases, WithTemplate(t)) {
      forall d | d in bases ensures d.definition.template == b.definition.template {
        if d.definition.template != "" {
          assert AllOrNone(bases, WithTemplate(d.definition.template));
        }
        if b.definition.template != "" {
          assert AllOrNone(bases, WithTemplate(b.definition.template));
        }
      }
    }
  }

  lemma ParametersAgree(bases: seq<Variant>, b: Variant)
    requires b in bases
    ensures (forall k, val :: WithParameter(k, val)(b.definition) ==> AllHave(bases, WithParameter(k, val))) <==>
      forall k, d :: k in b.definition.parameters && d in bases ==>
        k in d.definition.parameters && d.definition.parameters[k] == b.definition.parameters[k]
  {
    if forall k, val :: WithParameter(k, val)(b.definition) ==> AllHave(bases, WithParameter(k, val)) {
      forall k, d | k in b.definition.parameters && d in bases
        ensures k in d.definition.parameters && d.definition.parameters[k] == b.definition.parameters[k]
      {
        assert WithParameter(k, b.definition.parameters[k])(b.definition);
        assert AllHave(bases, WithParameter(k, b.definition.parameters[k]));
      }
    }
  }

  // ---------------------------------------------------------------------------
  // One override for each key
  // ---------------------------------------------------------------------------

  predicate DistinctKeys(overrides: seq<Override>) {
    forall i, j :: 0 <= i < j < |overrides| ==> overrides[i].key != overrides[j].key
  }

  ghost predicate DistinctGroups(variants: seq<Variant>) {
    forall i, j :: 0 <= i < j < |variants| ==> variants[i].group != variants[j].group
  }

  lemma {:induction false} MembersDistinct(configs: seq<Variant>, g: string)
    requires DistinctEnvironments(configs)
    ensures DistinctEnvironments(Members(configs, g))
    decreases |configs|
  {
    if configs != [] {
      var n := |configs| - 1;
      MembersDistinct(configs[..n], g);
      forall c | c in Members(configs[..n], g) ensures c.environment != configs[n].environment {
        MembersOf(configs[..n], g, c);
        var i :| 0 <= i < n && configs[i] == c;
      }
    }
  }

  lemma NextOverride(configs: seq<Variant>, n: nat) returns (own: seq<Variant>)
    requires 0 < n <= |configs|
    ensures OverridesOf(configs, n) == OverridesOf(configs, n - 1) + own && |own| <= 1
    ensures own != [] ==> own[0].group == configs[n - 1].group && own[0].environment == configs[n - 1].environment
  {
    var c := configs[n - 1];
    var o := OverrideOf(configs, c.definition);
    own := if o.Some? then [Variant(o.value, c.group, c.environment)] else [];
  }

  /** The overrides come from the variants at some increasing positions before `n`. */
  predicate ComeFrom(configs: seq<Variant>, n: nat, positions: seq<nat>, overrides: seq<Variant>)
    requires n <= |configs|
  {
    && |positions| == |overrides|
    && (forall k :: 0 <= k < |positions| ==> positions[k] < n)
    && (forall k, l :: 0 <= k < l < |positions| ==> positions[k] < positions[l])
    && forall k :: 0 <= k < |positions| ==>
         && overrides[k].group == configs[positions[k]].group
         && overrides[k].environment == configs[positions[k]].environment
  }

  lemma ComesFromNext(configs: seq<Variant>, n: nat, positions: seq<nat>, before: seq<Variant>, x: Variant)
    requires 0 < n <= |configs| && ComeFrom(configs, n - 1, positions, before)
    requires x.group == configs[n - 1].group && x.environment == configs[n - 1].environment
    ensures ComeFrom(configs, n, positions + [n - 1], before + [x])
  {
    var longer, all := positions + [n - 1], before + [x];
    forall k | 0 <= k < |longer|
      ensures longer[k] < n && all[k].group == configs[longer[k]].group
      ensures all[k].environment == configs[longer[k]].environment
    {
      assert k < |positions| ==> longer[k] == positions[k] && all[k] == before[k];
    }
  }

  lemma {:induction false} Origins(configs: seq<Variant>, n: nat) returns (positions: seq<nat>)
    requires n <= |configs|
    ensures ComeFrom(configs, n, positions, OverridesOf(configs, n))
  {
    positions := [];
    if n > 0 {
      positions := Origins(configs, n - 1);
      var own := NextOverride(configs, n);
      if own == [] {
        assert OverridesOf(configs, n - 1) + own == OverridesOf(configs, n - 1);
      } else {
        assert own == [own[0]];
        ComesFromNext(configs, n, positions, OverridesOf(configs, n - 1), own[0]);
        positions := positions + [n - 1];
      }
    }
  }

  /** Overrides are as distinct as the variants that leave them. */
  lemma OverridesDistinct(configs: seq<Variant>, positions: seq<nat>, overrides: seq<Variant>)
    requires ComeFrom(configs, |configs|, positions, overrides)
    ensures DistinctEnvironments(configs) ==> DistinctEnvironments(overrides)
    ensures DistinctGroups(configs) ==> DistinctGroups(overrides)
  {
  }

  lemma {:induction false} EnvironmentOverridesDistinct(configs: seq<Variant>, order: seq<string>)
    requires DistinctEnvironments(configs) && NoDuplicates(order)
    ensures DistinctEnvironments(EnvironmentOverrides(configs, order))
    decreases |order|
  {
    if order != [] {
      var front, g := order[..|order| - 1], order[|order| - 1];
      var members := Members(configs, g);
      var before, own := EnvironmentOverrides(configs, front), OverridesOf(members, |members|);
      EnvironmentOverridesDistinct(configs, front);
      MembersDistinct(configs, g);
      var positions := Origins(members, |members|);
      OverridesDistinct(members, positions, own);
      forall x, y | x in before && y in own ensures x.environment != y.environment {
        EnvironmentMembers(configs, front, x);
        GroupMembers(configs, g, y);
      }
      AppendDistinct(before, own);
    }
  }

  lemma AppendDistinct(a: seq<Variant>, b: seq<Variant>)
    requires DistinctEnvironments(a) && DistinctEnvironments(b)
    requires forall x, y :: x in a && y in b ==> x.environment != y.environment
    ensures DistinctEnvironments(a + b)
  {
    forall i, j | 0 <= i < j < |a + b| ensures (a + b)[i].environment != (a + b)[j].environment {
      if i < |a| <= j {
        assert a[i] in a && b[j - |a|] in b;
      }
    }
  }

  /** At most one override is written for an environment, and at most one for a group. */
  lemma OneOverrideEach(configs: seq<Variant>, top: TopLevel)
    requires DistinctEnvironments(configs) && IsFactored(configs, top)
    ensures DistinctKeys(top.environmentOverrides) && DistinctKeys(top.groupOverrides)
  {
    var order :| FactoredIn(configs, order, top);
    var bases := GroupBases(configs, order);
    EnvironmentOverridesDistinct(configs, order);
    BasesDistinct(configs, order);
    var positions := Origins(bases, |bases|);
    OverridesDistinct(bases, positions, OverridesOf(bases, |bases|));
  }
}
