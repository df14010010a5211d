/** Writing the variants of a config and loading the result again. */
module WriterLoader {
  import opened Entities
  import opened Listings
  import opened ConfigDefinitions
  import opened ConfigWriter
  import opened ConfigLoader

  // ---------------------------------------------------------------------------
  // One level of factoring
  // ---------------------------------------------------------------------------

  /** Everything that `base` says, `d` says too. */
  predicate Below(base: Definition, d: Definition) {
    && (base.name.Some? ==> base.name == d.name)
    && (forall k :: k in base.parameters ==> k in d.parameters && base.parameters[k] == d.parameters[k])
    && (base.template != "" ==> base.template == d.template)
    && (Effective(base.skip) ==> Effective(d.skip))
  }

  lemma SharedBelow(configs: seq<Variant>, c: Variant)
    requires c in configs
    ensures forall k :: k in Shared(configs) ==>
      k in c.definition.parameters && Shared(configs)[k] == c.definition.parameters[k]
    ensures c.definition.parameters == Shared(configs) + (c.definition.parameters - Shared(configs).Keys)
  {
    forall k | k in Shared(configs)
      ensures k in c.definition.parameters && Shared(configs)[k] == c.definition.parameters[k]
    {
      assert SharedParameter(configs, k, Shared(configs)[k]);
    }
  }

  /** A base and the values that are not shared make up the variant, whichever properties are shared. */
  lemma ReducedAgain(check: PropertyCheck, shared: map<string, Parameter>, d: Definition)
    requires d.parameters == shared + (d.parameters - shared.Keys)
    requires check.name == if check.shareName then d.name else None
    requires check.template == if check.shareTemplate then d.template else ""
    requires Effective(check.skip) == (check.shareSkip && Effective(d.skip))
    requires !check.shareSkip ==> check.skip == None
    ensures
      var base := Definition(check.name, shared, check.template, check.skip);
      Same(MaybeOverridden(base, Reduced(d, check, shared)), d)
  {
    if Reduced(d, check, shared).None? {
      assert d.parameters - shared.Keys == map[];
    }
  }

  /** The base of some variants and what remains of one of them make up that variant again. */
  lemma FactorsBack(configs: seq<Variant>, c: Variant)
    requires c in configs && BaseOf(configs).Some?
    ensures Below(BaseOf(configs).value, c.definition)
    ensures Same(MaybeOverridden(BaseOf(configs).value, OverrideOf(configs, c.definition)), c.definition)
  {
    if |configs| > 1 {
      assert configs[0] in configs;
      SharedBelow(configs, c);
      ReducedAgain(Check(configs), Shared(configs), c.definition);
    }
  }

  lemma OverriddenSame(a: Definition, b: Definition, o: Option<Definition>)
    requires Same(a, b)
    ensures Same(MaybeOverridden(a, o), MaybeOverridden(b, o))
  {
  }

  /** The overrides are those of the variants. */
  lemma {:induction false} OverrideMembers(configs: seq<Variant>, n: nat, x: Variant)
    requires n <= |configs|
    ensures x in OverridesOf(configs, n) <==> exists i :: 0 <= i < n && Leaves(configs, configs[i], x)
  {
    if n > 0 {
      OverrideMembers(configs, n - 1, x);
      LastOverride(configs, n, x);
    }
  }

  /** Variant `c` leaves the override `x` beside the base. */
  ghost predicate Leaves(configs: seq<Variant>, c: Variant, x: Variant) {
    OverrideOf(configs, c.definition) == Some(x.definition) && c.group == x.group && c.environment == x.environment
  }

  lemma LastOverride(configs: seq<Variant>, n: nat, x: Variant)
    requires 0 < n <= |configs|
    ensures x in OverridesOf(configs, n) <==> x in OverridesOf(configs, n - 1) || Leaves(configs, configs[n - 1], x)
  {
    var c := configs[n - 1];
    var o := OverrideOf(configs, c.definition);
    if o.Some? {
      assert OverridesOf(configs, n) == OverridesOf(configs, n - 1) + [Variant(o.value, c.group, c.environment)];
    }
  }

  lemma {:induction false} EnvironmentMembers(configs: seq<Variant>, order: seq<string>, x: Variant)
    ensures x in EnvironmentOverrides(configs, order) <==> x.group in order && RemainsOf(configs, x)
  {
    if order != [] {
      var g := order[|order| - 1];
      EnvironmentMembers(configs, order[..|order| - 1], x);
      GroupMembers(configs, g, x);
    }
  }

  /** Some variant of the group of `x` for its environment keeps the definition of `x` as its override. */
  ghost predicate RemainsOf(configs: seq<Variant>, x: Variant) {
    exists c :: c in configs && c.group == x.group && c.environment == x.environment
      && OverrideOf(Members(configs, c.group), c.definition) == Some(x.definition)
  }

  lemma GroupMembers(configs: seq<Variant>, g: string, x: Variant)
    ensures x in OverridesOf(Members(configs, g), |Members(configs, g)|) <==> x.group == g && RemainsOf(configs, x)
  {
    var members := Members(configs, g);
    OverrideMembers(members, |members|, x);
    forall c ensures c in members <==> c in configs && c.group == g {
      MembersOf(configs, g, c);
    }
    if x.group == g && RemainsOf(configs, x) {
      var c :| c in configs && c.group == x.group && c.environment == x.environment
               && OverrideOf(Members(configs, c.group), c.definition) == Some(x.definition);
      var i :| 0 <= i < |members| && members[i] == c;
      assert Leaves(members, members[i], x);
    }
  }

  lemma {:induction false} BaseMembers(configs: seq<Variant>, order: seq<string>, x: Variant)
    ensures x in GroupBases(configs, order) <==>
      x.group in order && x.environment == "" && BaseOf(Members(configs, x.group)) == Some(x.definition)
  {
    if order != [] {
      BaseMembers(configs, order[..|order| - 1], x);
    }
  }

  // ---------------------------------------------------------------------------
  // What the loader finds
  // ---------------------------------------------------------------------------

  ghost predicate DistinctEnvironments(configs: seq<Variant>) {
    forall i, j :: 0 <= i < j < |configs| ==> configs[i].environment != configs[j].environment
  }

  /** If the overrides of a key all have the same definition, the loader finds that one. */
  lemma FindsOnly(overrides: seq<Override>, key: string, d: Option<Definition>)
    requires forall x :: Override(key, x) in overrides <==> d == Some(x)
    ensures Find(overrides, key) == d
  {
    assert d.Some? ==> Override(key, d.value) in overrides;
    var i := FindsLast(overrides, key);
    if Find(overrides, key).Some? {
      assert Override(key, Find(overrides, key).value) in overrides;
    }
  }

  lemma InByEnvironment(reduced: seq<Variant>, key: string, d: Definition)
    ensures Override(key, d) in ByEnvironment(reduced) <==>
      exists x :: x in reduced && x.environment == key && x.definition == d
  {
    if x :| x in reduced && x.environment == key && x.definition == d {
      var i :| 0 <= i < |reduced| && reduced[i] == x;
      assert ByEnvironment(reduced)[i] == Override(key, d);
    }
  }

  lemma InByGroup(reduced: seq<Variant>, key: string, d: Definition)
    ensures Override(key, d) in ByGroup(reduced) <==> exists x :: x in reduced && x.group == key && x.definition == d
  {
    if x :| x in reduced && x.group == key && x.definition == d {
      var i :| 0 <= i < |reduced| && reduced[i] == x;
      assert ByGroup(reduced)[i] == Override(key, d);
    }
  }

  /** The overrides for the environment of a variant are what that variant left over. */
  lemma EnvironmentOverrideIs(configs: seq<Variant>, order: seq<string>, v: Variant, x: Definition)
    requires v in configs && v.group in order && DistinctEnvironments(configs)
    requires forall c :: c in configs ==> c.group in order
    ensures Override(v.environment, x) in ByEnvironment(EnvironmentOverrides(configs, order)) <==>
      OverrideOf(Members(configs, v.group), v.definition) == Some(x)
  {
    var reduced := EnvironmentOverrides(configs, order);
    InByEnvironment(reduced, v.environment, x);
    if OverrideOf(Members(configs, v.group), v.definition) == Some(x) {
      EnvironmentMembers(configs, order, Variant(x, v.group, v.environment));
      assert RemainsOf(configs, Variant(x, v.group, v.environment));
    }
    if y :| y in reduced && y.environment == v.environment && y.definition == x {
      EnvironmentMembers(configs, order, y);
      RemainsOfOnly(configs, v, y);
    }
  }

  lemma RemainsOfOnly(configs: seq<Variant>, v: Variant, y: Variant)
    requires v in configs && DistinctEnvironments(configs) && RemainsOf(configs, y) && y.environment == v.environment
    ensures OverrideOf(Members(configs, v.group), v.definition) == Some(y.definition)
  {
    var c :| c in configs && c.group == y.group && c.environment == y.environment
             && OverrideOf(Members(configs, c.group), c.definition) == Some(y.definition);
    var i :| 0 <= i < |configs| && configs[i] == c;
    var j :| 0 <= j < |configs| && configs[j] == v;
    assert i == j;
  }

  lemma FindEnvironment(configs: seq<Variant>, order: seq<string>, v: Variant)
    requires v in configs && v.group in order && DistinctEnvironments(configs)
    requires forall c :: c in configs ==> c.group in order
    ensures Find(ByEnvironment(EnvironmentOverrides(configs, order)), v.environment) ==
      OverrideOf(Members(configs, v.group), v.definition)
  {
    var overrides := ByEnvironment(EnvironmentOverrides(configs, order));
    var d := OverrideOf(Members(configs, v.group), v.definition);
    forall x ensures Override(v.environment, x) in overrides <==> d == Some(x) {
      EnvironmentOverrideIs(configs, order, v, x);
    }
    FindsOnly(overrides, v.environment, d);
  }

  /** The override of a group beside the base of all groups. */
  ghost function GroupOverride(configs: seq<Variant>, order: seq<string>, g: string): Option<Definition> {
    var base := BaseOf(Members(configs, g));
    if base.Some? then OverrideOf(GroupBases(configs, order), base.value) else None
  }

  /** The overrides for a group are what its base left over. */
  lemma GroupOverrideIs(configs: seq<Variant>, order: seq<string>, g: string, x: Definition)
    requires g in order
    ensures Override(g, x) in Factored(configs, order).groupOverrides <==> GroupOverride(configs, order, g) == Some(x)
  {
    var bases := GroupBases(configs, order);
    var reduced := OverridesOf(bases, |bases|);
    InByGroup(reduced, g, x);
    if GroupOverride(configs, order, g) == Some(x) {
      var b := Variant(BaseOf(Members(configs, g)).value, g, "");
      BaseMembers(configs, order, b);
      OverrideMembers(bases, |bases|, Variant(x, g, ""));
      var i :| 0 <= i < |bases| && bases[i] == b;
      assert Leaves(bases, bases[i], Variant(x, g, ""));
    }
    if y :| y in reduced && y.group == g && y.definition == x {
      OverrideMembers(bases, |bases|, y);
      var i :| 0 <= i < |bases| && Leaves(bases, bases[i], y);
      BaseMembers(configs, order, bases[i]);
    }
  }

  lemma FindGroup(configs: seq<Variant>, order: seq<string>, g: string)
    requires g in order
    ensures Find(Factored(configs, order).groupOverrides, g) == GroupOverride(configs, order, g)
  {
    var d := GroupOverride(configs, order, g);
    forall x ensures Override(g, x) in Factored(configs, order).groupOverrides <==> d == Some(x) {
      GroupOverrideIs(configs, order, g, x);
    }
    FindsOnly(Factored(configs, order).groupOverrides, g, d);
  }

  // ---------------------------------------------------------------------------
  // The round trip
  // ---------------------------------------------------------------------------

  /** There is a property or parameter on which all the variants agree. */
  ghost predicate ShareSomething(members: seq<Variant>)
    requires |members| > 0
  {
    var first := members[0].definition;
    || (first.name.Some? && ShareName(members))
    || (first.template != "" && ShareTemplate(members))
    || (first.skip.Some? && ShareSkip(members))
    || exists k, val :: SharedParameter(members, k, val)
  }

  /** The variants of the group share something, or there is just one. */
  ghost predicate HasBase(configs: seq<Variant>, g: string) {
    var members := Members(configs, g);
    |members| == 1 || (|members| > 1 && ShareSomething(members))
  }

  lemma HasBaseIff(configs: seq<Variant>, g: string)
    ensures HasBase(configs, g) <==> BaseOf(Members(configs, g)).Some?
  {
    var members := Members(configs, g);
    if |members| > 1 {
      assert members[0] in members;
      var shared := Shared(members);
      if k, val :| SharedParameter(members, k, val) {
        assert k in shared;
      }
      if shared != map[] {
        var k :| k in shared;
        assert SharedParameter(members, k, shared[k]);
      }
      assert |shared| == 0 <==> shared == map[];
    }
  }

  /** Whatever `base` sets, `d` sets for itself. */
  predicate Covers(d: Definition, base: Definition) {
    && (base.name.Some? ==> d.name.Some?)
    && base.parameters.Keys <= d.parameters.Keys
    && (base.template != "" ==> d.template != "")
    && (Effective(base.skip) ==> d.skip.Some?)
  }

  lemma OverriddenIff(base: Definition, d: Definition)
    ensures Same(Overridden(Overridden(EMPTY, base), d), d) <==> Covers(d, base)
  {
    var r := Overridden(Overridden(EMPTY, base), d);
    assert r.parameters == d.parameters <==> base.parameters.Keys <= d.parameters.Keys by {
      assert r.parameters.Keys == base.parameters.Keys + d.parameters.Keys;
    }
  }

  lemma OverriddenEmpty(base: Definition)
    ensures Same(Overridden(EMPTY, base), base)
  {
  }

  /** A group with a base gets its base back, from the common base and its own override. */
  lemma GroupFactorsBack(configs: seq<Variant>, order: seq<string>, g: string)
    requires g in order && BaseOf(Members(configs, g)).Some?
    ensures Same(MaybeOverridden(Overridden(EMPTY, Factored(configs, order).config), GroupOverride(configs, order, g)),
                 BaseOf(Members(configs, g)).value)
  {
    var bases := GroupBases(configs, order);
    var b := Variant(BaseOf(Members(configs, g)).value, g, "");
    BaseMembers(configs, order, b);
    OverriddenEmpty(Factored(configs, order).config);
    if BaseOf(bases).Some? {
      FactorsBack(bases, b);
      OverriddenSame(Overridden(EMPTY, BaseOf(bases).value), BaseOf(bases).value, OverrideOf(bases, b.definition));
    } else {
      OverriddenIff(EMPTY, b.definition);
    }
  }

  /** What the loader makes of the factored definition in the environment of `v`. */
  ghost function Reloaded(configs: seq<Variant>, order: seq<string>, v: Variant): Definition {
    Effected(Factored(configs, order), Environment(v.environment, v.group))
  }

  lemma ReloadedParts(configs: seq<Variant>, order: seq<string>, v: Variant)
    requires v in configs && DistinctEnvironments(configs) && Lists(order, GroupNames(configs))
    ensures Reloaded(configs, order, v) ==
      MaybeOverridden(
        MaybeOverridden(Overridden(EMPTY, Factored(configs, order).config), GroupOverride(configs, order, v.group)),
        OverrideOf(Members(configs, v.group), v.definition))
  {
    forall c | c in configs ensures c.group in order {
      assert c.group in GroupNames(configs);
    }
    FindGroup(configs, order, v.group);
    FindEnvironment(configs, order, v);
  }

  lemma BasedRoundTrip(configs: seq<Variant>, order: seq<string>, v: Variant)
    requires v in configs && DistinctEnvironments(configs) && Lists(order, GroupNames(configs))
    requires HasBase(configs, v.group)
    ensures Same(Reloaded(configs, order, v), v.definition)
  {
    ReloadedParts(configs, order, v);
    assert v.group in GroupNames(configs);
    var members := Members(configs, v.group);
    var config := Overridden(EMPTY, Factored(configs, order).config);
    MembersOf(configs, v.group, v);
    HasBaseIff(configs, v.group);
    GroupFactorsBack(configs, order, v.group);
    FactorsBack(members, v);
    OverriddenSame(MaybeOverridden(config, GroupOverride(configs, order, v.group)), BaseOf(members).value,
                   OverrideOf(members, v.definition));
  }

  lemma UnbasedReloaded(configs: seq<Variant>, order: seq<string>, v: Variant)
    requires v in configs && DistinctEnvironments(configs) && Lists(order, GroupNames(configs))
    requires !HasBase(configs, v.group)
    ensures Reloaded(configs, order, v) == Overridden(Overridden(EMPTY, Factored(configs, order).config), v.definition)
  {
    ReloadedParts(configs, order, v);
    HasBaseIff(configs, v.group);
    MembersOf(configs, v.group, v);
  }

  // ---------------------------------------------------------------------------
  // What the common base sets
  // ---------------------------------------------------------------------------

  /** Properties of definitions that a base has exactly when all its variants have them. */
  type Trait = Definition -> bool

  function Named(name: Parameter): Trait {
    (d: Definition) => d.name == Some(name)
  }

  function WithParameter(key: string, val: Parameter): Trait {
    (d: Definition) => key in d.parameters && d.parameters[key] == val
  }

  function WithTemplate(template: string): Trait {
    (d: Definition) => d.template == template
  }

  function Skipped(): Trait {
    (d: Definition) => Effective(d.skip)
  }

  ghost predicate IsShareable(p: Trait) {
    || (exists n :: p == Named(n)) || (exists k, val :: p == WithParameter(k, val))
    || (exists t :: t != "" && p == WithTemplate(t)) || p == Skipped()
  }

  ghost predicate AllHave(variants: seq<Variant>, p: Trait) {
    variants != [] && forall c :: c in variants ==> p(c.definition)
  }

  ghost function BaseOrEmpty(variants: seq<Variant>): Definition {
    if BaseOf(variants).Some? then BaseOf(variants).value else EMPTY
  }

  lemma BaseHasIff(variants: seq<Variant>, p: Trait)
    requires IsShareable(p)
    ensures p(BaseOrEmpty(variants)) <==> AllHave(variants, p)
  {
    if |variants| > 1 {
      assert variants[0] in variants;
      if k, val :| p == WithParameter(k, val) {
        ParameterOfBase(variants, k, val);
      }
    } else if |variants| == 1 {
      assert variants[0] in variants;
    }
  }

  lemma ParameterOfBase(variants: seq<Variant>, k: string, val: Parameter)
    requires |variants| > 1
    ensures k in BaseOrEmpty(variants).parameters && BaseOrEmpty(variants).parameters[k] == val <==>
      SharedParameter(variants, k, val)
  {
    assert variants[0] in variants;
    var shared := Shared(variants);
    if SharedParameter(variants, k, val) {
      assert k in shared;
    }
    assert k in shared && shared[k] == val ==> SharedParameter(variants, k, val);
  }

  /** `c` belongs to a group with a base. */
  ghost predicate Based(configs: seq<Variant>, c: Variant) {
    c in configs && HasBase(configs, c.group)
  }

  /** All variants of the groups that have a base agree on this, and there is such a group. */
  ghost predicate Common(configs: seq<Variant>, p: Trait) {
    (exists c :: Based(configs, c)) && forall c :: Based(configs, c) ==> p(c.definition)
  }

  /** A group's base has what all variants of the group have. */
  lemma GroupBaseHasIff(configs: seq<Variant>, g: string, p: Trait)
    requires IsShareable(p) && HasBase(configs, g)
    ensures p(BaseOrEmpty(Members(configs, g))) <==> forall c :: c in configs && c.group == g ==> p(c.definition)
  {
    HasBaseIff(configs, g);
    var members := Members(configs, g);
    BaseHasIff(members, p);
    forall c ensures c in members <==> c in configs && c.group == g {
      MembersOf(configs, g, c);
    }
  }

  /** The common base has exactly what is common, whatever the order of the groups. */
  lemma CommonBaseHasIff(configs: seq<Variant>, order: seq<string>, p: Trait)
    requires IsShareable(p) && Lists(order, GroupNames(configs))
    ensures p(Factored(configs, order).config) <==> Common(configs, p)
  {
    var bases := GroupBases(configs, order);
    BaseHasIff(bases, p);
    if AllHave(bases, p) {
      AllBasesHave(configs, order, p);
    }
    if Common(configs, p) {
      AllBasedHave(configs, order, p);
    }
  }

  lemma AllBasesHave(configs: seq<Variant>, order: seq<string>, p: Trait)
    requires IsShareable(p) && Lists(order, GroupNames(configs)) && AllHave(GroupBases(configs, order), p)
    ensures Common(configs, p)
  {
    var bases := GroupBases(configs, order);
    forall c | Based(configs, c) ensures p(c.definition) {
      HasBaseIff(configs, c.group);
      assert c.group in GroupNames(configs);
      var b := Variant(BaseOf(Members(configs, c.group)).value, c.group, "");
      BaseMembers(configs, order, b);
      GroupBaseHasIff(configs, c.group, p);
    }
    var b := bases[0];
    assert b in bases;
    BaseMembers(configs, order, b);
    HasBaseIff(configs, b.group);
    var c :| c in configs && c.group == b.group;
    assert Based(configs, c);
  }

  lemma AllBasedHave(configs: seq<Variant>, order: seq<string>, p: Trait)
    requires IsShareable(p) && Lists(order, GroupNames(configs)) && Common(configs, p)
    ensures AllHave(GroupBases(configs, order), p)
  {
    var bases := GroupBases(configs, order);
    forall b | b in bases ensures p(b.definition) {
      BaseMembers(configs, order, b);
      HasBaseIff(configs, b.group);
      GroupBaseHasIff(configs, b.group, p);
      assert forall c :: c in configs && c.group == b.group ==> Based(configs, c);
    }
    var c :| Based(configs, c);
    HasBaseIff(configs, c.group);
    assert c.group in GroupNames(configs);
    BaseMembers(configs, order, Variant(BaseOf(Members(configs, c.group)).value, c.group, ""));
  }

  /** `d` sets every name, parameter, template and true skip that is common. */
  ghost predicate SetsCommon(configs: seq<Variant>, d: Definition) {
    && (forall n :: Common(configs, Named(n)) ==> d.name.Some?)
    && (forall k, val :: Common(configs, WithParameter(k, val)) ==> k in d.parameters)
    && (forall t :: t != "" && Common(configs, WithTemplate(t)) ==> d.template != "")
    && (Common(configs, Skipped()) ==> d.skip.Some?)
  }

  lemma NamesCovered(configs: seq<Variant>, order: seq<string>, d: Definition)
    requires Lists(order, GroupNames(configs))
    ensures (Factored(configs, order).config.name.Some? ==> d.name.Some?) <==>
      forall n :: Common(configs, Named(n)) ==> d.name.Some?
  {
    var config := Factored(configs, order).config;
    forall n ensures config.name == Some(n) <==> Common(configs, Named(n)) {
      CommonBaseHasIff(configs, order, Named(n));
    }
    assert config.name.Some? ==> Common(configs, Named(config.name.value));
  }

  lemma ParametersCovered(configs: seq<Variant>, order: seq<string>, d: Definition)
    requires Lists(order, GroupNames(configs))
    ensures Factored(configs, order).config.parameters.Keys <= d.parameters.Keys <==>
      forall k, val :: Common(configs, WithParameter(k, val)) ==> k in d.parameters
  {
    var params := Factored(configs, order).config.parameters;
    forall k, val ensures k in params && params[k] == val <==> Common(configs, WithParameter(k, val)) {
      CommonBaseHasIff(configs, order, WithParameter(k, val));
    }
    forall k | k in params ensures Common(configs, WithParameter(k, params[k])) {
    }
  }

  lemma TemplatesCovered(configs: seq<Variant>, order: seq<string>, d: Definition)
    requires Lists(order, GroupNames(configs))
    ensures (Factored(configs, order).config.template != "" ==> d.template != "") <==>
      forall t :: t != "" && Common(configs, WithTemplate(t)) ==> d.template != ""
  {
    var config := Factored(configs, order).config;
    forall t | t != "" ensures config.template == t <==> Common(configs, WithTemplate(t)) {
      CommonBaseHasIff(configs, order, WithTemplate(t));
    }
    assert config.template != "" ==> Common(configs, WithTemplate(config.template));
  }

  lemma CoversIff(configs: seq<Variant>, order: seq<string>, d: Definition)
    requires Lists(order, GroupNames(configs))
    ensures Covers(d, Factored(configs, order).config) <==> SetsCommon(configs, d)
  {
    NamesCovered(configs, order, d);
    ParametersCovered(configs, order, d);
    TemplatesCovered(configs, order, d);
    CommonBaseHasIff(configs, order, Skipped());
    assert Skipped()(Factored(configs, order).config) <==> Effective(Factored(configs, order).config.skip);
  }

  /** Writing and loading gives an environment its own definition back if and only if its group has a base, or
      its definition sets every name, parameter, template and true skip on which all variants of the groups
      that have a base agree. */
  lemma RoundTrip(configs: seq<Variant>, top: TopLevel, v: Variant)
    requires v in configs && DistinctEnvironments(configs) && IsFactored(configs, top)
    ensures Same(Effected(top, Environment(v.environment, v.group)), v.definition) <==>
      HasBase(configs, v.group) || SetsCommon(configs, v.definition)
  {
    var order :| FactoredIn(configs, order, top);
    if HasBase(configs, v.group) {
      BasedRoundTrip(configs, order, v);
    } else {
      UnbasedReloaded(configs, order, v);
      OverriddenIff(top.config, v.definition);
      CoversIff(configs, order, v.definition);
    }
  }

  /** The common base is the same for every order of the groups. */
  lemma CommonBaseIsUnique(configs: seq<Variant>, order: seq<string>, order': seq<string>)
    requires Lists(order, GroupNames(configs)) && Lists(order', GroupNames(configs))
    ensures Same(Factored(configs, order).config, Factored(configs, order').config)
  {
    var a, b := Factored(configs, order).config, Factored(configs, order').config;
    forall p | IsShareable(p) ensures p(a) <==> p(b) {
      CommonBaseHasIff(configs, order, p);
      CommonBaseHasIff(configs, order', p);
    }
    SameIfAlike(a, b);
  }

  lemma SameIfAlike(a: Definition, b: Definition)
    requires forall p :: IsShareable(p) ==> (p(a) <==> p(b))
    ensures Same(a, b)
  {
    assert a.name.Some? ==> Named(a.name.value)(a) && IsShareable(Named(a.name.value));
    assert b.name.Some? ==> Named(b.name.value)(b) && IsShareable(Named(b.name.value));
    assert WithTemplate(a.template)(a) && (a.template != "" ==> IsShareable(WithTemplate(a.template)));
    assert WithTemplate(b.template)(b) && (b.template != "" ==> IsShareable(WithTemplate(b.template)));
    assert IsShareable(Skipped()) && (Skipped()(a) <==> Effective(a.skip)) && (Skipped()(b) <==> Effective(b.skip));
    forall k ensures k in a.parameters <==> k in b.parameters
      ensures k in a.parameters && k in b.parameters ==> a.parameters[k] == b.parameters[k]
    {
      assert k in a.parameters ==>
        WithParameter(k, a.parameters[k])(a) && IsShareable(WithParameter(k, a.parameters[k]));
      assert k in b.parameters ==>
        WithParameter(k, b.parameters[k])(b) && IsShareable(WithParameter(k, b.parameters[k]));
    }
  }

  /** What an environment gets does not depend on the order in which the writer met the groups. */
  lemma OrderDoesNotMatter(configs: seq<Variant>, top: TopLevel, top': TopLevel, v: Variant)
    requires v in configs && DistinctEnvironments(configs) && IsFactored(configs, top) && IsFactored(configs, top')
    ensures
      var env := Environment(v.environment, v.group);
      Same(Effected(top, env), Effected(top', env))
  {
    var order :| FactoredIn(configs, order, top);
    var order' :| FactoredIn(configs, order', top');
    if HasBase(configs, v.group) {
      BasedRoundTrip(configs, order, v);
      BasedRoundTrip(configs, order', v);
    } else {
      UnbasedReloaded(configs, order, v);
      UnbasedReloaded(configs, order', v);
      CommonBaseIsUnique(configs, order, order');
      OverriddenSame(Overridden(EMPTY, top.config), Overridden(EMPTY, top'.config), Some(v.definition));
    }
  }

  /** The variants agree on their parameter keys, and each has a name, a template and an explicit skip, as the
      writer produces them from loaded configs. */
  predicate Uniform(configs: seq<Variant>) {
    forall c, d :: c in configs && d in configs ==>
      && c.definition.parameters.Keys == d.definition.parameters.Keys
      && c.definition.name.Some? && c.definition.template != "" && c.definition.skip.Some?
  }

  /** What is loaded for a variant that comes back is what its own definition would give, errors included. */
  lemma LoadsAlike(a: Definition, b: Definition, env: Environment, parser: Parser)
    requires Same(a, b)
    ensures FromDefinition(a, env, parser) == FromDefinition(b, env, parser)
  {
  }

  /** Variants of one coordinate with distinct environments, the same parameters, names, templates and explicit
      skips load back as they were: the config with the variant's own name, parameters, template and skip,
      unless the variant's own definition cannot be read, and then with the same errors. */
  lemma UniformRoundTrip(configs: seq<Variant>, top: TopLevel, v: Variant, parser: Parser)
    requires v in configs && DistinctEnvironments(configs) && Uniform(configs) && IsFactored(configs, top)
    ensures
      var env := Environment(v.environment, v.group);
      var d := v.definition;
      FromDefinition(Effected(top, env), env, parser) ==
      if DefinitionErrors(d, parser) != [] then Errors(DefinitionErrors(d, parser))
      else Loaded(Config(env, d.name, d.parameters, d.template, Effective(d.skip)))
    ensures
      var env := Environment(v.environment, v.group);
      ParsedFrom(v.definition, env, parser, FromDefinition(Effected(top, env), env, parser))
  {
    var env := Environment(v.environment, v.group);
    RoundTrip(configs, top, v);
    LoadsAlike(Effected(top, env), v.definition, env, parser);
    FromDefinitionIsParsed(v.definition, env, parser);
  }

  /** Without the same parameters the round trip can fail: the two environments of `stage` share nothing, so
      both inherit the parameter that only `prod` has. */
  lemma LeakedParameter(order: seq<string>)
    returns (configs: seq<Variant>, v: Variant)
    requires Lists(order, {"prod", "stage"})
    ensures GroupNames(configs) == {"prod", "stage"} && DistinctEnvironments(configs) && v in configs
    ensures forall c :: c in configs ==>
      c.definition.name.Some? && c.definition.template != "" && c.definition.skip.Some?
    ensures "threshold" !in v.definition.parameters && "threshold" in Reloaded(configs, order, v).parameters
  {
    var p := Variant(Definition(Some("p"), map["threshold" := "1"], "p.json", Some(false)), "prod", "prod");
    v := Variant(Definition(Some("a"), map[], "a.json", Some(true)), "stage", "dev");
    var w := Variant(Definition(Some("b"), map[], "b.json", Some(false)), "stage", "test");
    configs := [p, v, w];
    assert "threshold" in p.definition.parameters;
    Inherits(order, "prod", "stage", p, v, w);
  }

  /** A group that shares nothing inherits the parameters of the only other group. */
  lemma Inherits(order: seq<string>, g: string, h: string, p: Variant, v: Variant, w: Variant)
    requires Lists(order, {g, h}) && g != h && p.group == g && v.group == w.group == h
    requires DistinctEnvironments([p, v, w]) && p.definition.name.Some?
    requires v.definition.name != w.definition.name && v.definition.template != w.definition.template
    requires Effective(v.definition.skip) != Effective(w.definition.skip) && v.definition.parameters == map[]
    ensures GroupNames([p, v, w]) == {g, h}
    ensures p.definition.parameters.Keys <= Reloaded([p, v, w], order, v).parameters.Keys
  {
    var configs := [p, v, w];
    assert GroupNames(configs) == {g, h} by {
      assert configs[0] in configs && configs[1] in configs;
    }
    GroupsOfThree(p, v, w);
    TwoShareNothing(v, w);
    SingleBase(configs, order, g, h, p);
    ReloadedParts(configs, order, v);
  }

  lemma GroupsOfThree(p: Variant, v: Variant, w: Variant)
    requires p.group != v.group == w.group
    ensures Members([p, v, w], p.group) == [p] && Members([p, v, w], v.group) == [v, w]
  {
    assert [p, v, w][..2] == [p, v] && [p, v][..1] == [p];
    assert Members([p], p.group) == [p] && Members([p], v.group) == [];
    assert Members([p, v], p.group) == [p] && Members([p, v], v.group) == [v];
  }

  lemma TwoShareNothing(v: Variant, w: Variant)
    requires v.definition.name != w.definition.name && v.definition.template != w.definition.template
    requires Effective(v.definition.skip) != Effective(w.definition.skip) && v.definition.parameters == map[]
    ensures BaseOf([v, w]) == None
  {
    assert [v, w][1] in [v, w];
  }

  /** When group `g` has a base and the only other group has none, that base is the common base. */
  lemma SingleBase(configs: seq<Variant>, order: seq<string>, g: string, h: string, p: Variant)
    requires Lists(order, {g, h}) && p.definition.name.Some?
    requires Members(configs, g) == [p] && BaseOf(Members(configs, h)) == None
    ensures Factored(configs, order).config.parameters == p.definition.parameters
  {
    var bases := GroupBases(configs, order);
    var b := Variant(p.definition, g, "");
    assert b in bases by {
      BaseMembers(configs, order, b);
    }
    forall x | x in bases ensures x == b {
      BaseMembers(configs, order, x);
    }
    OnlyBase(bases, b);
  }

  lemma OnlyBase(bases: seq<Variant>, b: Variant)
    requires b in bases && b.definition.name.Some? && forall x :: x in bases ==> x == b
    ensures BaseOf(bases).Some? && BaseOf(bases).value.parameters == b.definition.parameters
  {
    assert bases[0] in bases;
  }
}
