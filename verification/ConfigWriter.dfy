/** The writer: factors the variants of one config into a base, group overrides and environment overrides. */
module ConfigWriter {
  import opened Entities
  import opened Listings
  import opened ConfigDefinitions

  // ---------------------------------------------------------------------------
  // Grouping
  // ---------------------------------------------------------------------------

  function Members(configs: seq<Variant>, group: string): seq<Variant> {
    if configs == [] then []
    else
      var last := configs[|configs| - 1];
      Members(configs[..|configs| - 1], group) + if last.group == group then [last] else []
  }

  lemma {:induction false} MembersOf(configs: seq<Variant>, group: string, c: Variant)
    ensures c in Members(configs, group) <==> c in configs && c.group == group
  {
    if configs != [] {
      MembersOf(configs[..|configs| - 1], group, c);
    }
  }

  function GroupNames(configs: seq<Variant>): set<string> {
    set c | c in configs :: c.group
  }

  method GroupByGroups(configs: seq<Variant>) returns (result: map<string, seq<Variant>>)
    ensures result.Keys == GroupNames(configs)
    ensures forall g :: g in result ==> result[g] == Members(configs, g)
  {
    result := map[];
    for i := 0 to |configs|
      invariant result.Keys == GroupNames(configs[..i])
      invariant forall g :: g in result ==> result[g] == Members(configs[..i], g)
    {
      var c := configs[i];
      GroupsGrow(configs, i);
      result := result[c.group := (if c.group in result then result[c.group] else []) + [c]];
    }
    assert configs[..|configs|] == configs;
  }

  lemma GroupsGrow(configs: seq<Variant>, i: nat)
    requires i < |configs|
    ensures GroupNames(configs[..i + 1]) == GroupNames(configs[..i]) + {configs[i].group}
    ensures forall g ::
      Members(configs[..i + 1], g) == Members(configs[..i], g) + if configs[i].group == g then [configs[i]] else []
    ensures forall g :: g !in GroupNames(configs[..i]) ==> Members(configs[..i], g) == []
  {
    var front, all := configs[..i], configs[..i + 1];
    assert all == front + [configs[i]] && all[..i] == front;
    forall g | g !in GroupNames(front) ensures Members(front, g) == [] {
      NoMembers(front, g);
    }
  }

  lemma {:induction false} NoMembers(configs: seq<Variant>, group: string)
    requires group !in GroupNames(configs)
    ensures Members(configs, group) == []
  {
    if configs != [] {
      assert configs[|configs| - 1] in configs;
      NoMembers(configs[..|configs| - 1], group);
    }
  }

  // ---------------------------------------------------------------------------
  // What a list of variants shares
  // ---------------------------------------------------------------------------

  datatype PropertyCheck = PropertyCheck(
    shareName: bool, foundName: bool, name: Option<Parameter>,
    shareTemplate: bool, foundTemplate: bool, template: string,
    shareSkip: bool, foundSkip: bool, skip: Option<bool>)

  ghost predicate ShareName(configs: seq<Variant>)
    requires |configs| > 0
  {
    forall c :: c in configs ==> c.definition.name == configs[0].definition.name
  }

  ghost predicate ShareTemplate(configs: seq<Variant>)
    requires |configs| > 0
  {
    forall c :: c in configs ==> c.definition.template == configs[0].definition.template
  }

  ghost predicate ShareSkip(configs: seq<Variant>)
    requires |configs| > 0
  {
    forall c :: c in configs ==> Effective(c.definition.skip) == Effective(configs[0].definition.skip)
  }

  ghost function Check(configs: seq<Variant>): PropertyCheck
    requires |configs| > 0
  {
    var first := configs[0].definition;
    var name := if ShareName(configs) then first.name else None;
    var template := if ShareTemplate(configs) then first.template else "";
    var skip := if ShareSkip(configs) then first.skip else None;
    PropertyCheck(
      ShareName(configs), name.Some? || !ShareName(configs), name,
      ShareTemplate(configs), template != "" || !ShareTemplate(configs), template,
      ShareSkip(configs), skip.Some? || !ShareSkip(configs), skip)
  }

  predicate EquivalentSkip(a: Option<bool>, b: Option<bool>)
    ensures EquivalentSkip(a, b) <==> Effective(a) == Effective(b)
  {
    a == b || (a == None && b == Some(false)) || (a == Some(false) && b == None)
  }

  method TestForSameProperties(configs: seq<Variant>) returns (r: PropertyCheck)
    requires |configs| > 0
    ensures r == Check(configs)
  {
    var name := configs[0].definition.name;
    var template := configs[0].definition.template;
    var skip := configs[0].definition.skip;
    var sameName, sameTemplate, sameSkip := true, true, true;
    for i := 0 to |configs|
      invariant sameName <==> forall k :: 0 <= k < i ==> configs[k].definition.name == name
      invariant sameTemplate <==> forall k :: 0 <= k < i ==> configs[k].definition.template == template
      invariant sameSkip <==> forall k :: 0 <= k < i ==> Effective(configs[k].definition.skip) == Effective(skip)
    {
      var d := configs[i].definition;
      sameName := sameName && name == d.name;
      sameTemplate := sameTemplate && template == d.template;
      sameSkip := sameSkip && EquivalentSkip(skip, d.skip);
    }
    if !sameName {
      name := None;
    }
    if !sameTemplate {
      template := "";
    }
    if !sameSkip {
      skip := None;
    }
    r := PropertyCheck(
      sameName, name != None || !sameName, name,
      sameTemplate, template != "" || !sameTemplate, template,
      sameSkip, skip != None || !sameSkip, skip);
  }

  ghost predicate SharedParameter(configs: seq<Variant>, name: string, val: Parameter) {
    forall c :: c in configs ==> name in c.definition.parameters && c.definition.parameters[name] == val
  }

  ghost function Shared(configs: seq<Variant>): map<string, Parameter>
    requires |configs| > 0
  {
    var first := configs[0].definition.parameters;
    map k | k in first && SharedParameter(configs, k, first[k]) :: first[k]
  }

  method IsSharedParameter(configs: seq<Variant>, name: string, val: Parameter) returns (shared: bool)
    ensures shared <==> SharedParameter(configs, name, val)
  {
    for i := 0 to |configs|
      invariant forall k :: 0 <= k < i ==>
        name in configs[k].definition.parameters && configs[k].definition.parameters[name] == val
    {
      if name !in configs[i].definition.parameters || configs[i].definition.parameters[name] != val {
        assert configs[i] in configs;
        return false;
      }
    }
    shared := true;
  }

  method ExtractSharedParameters(configs: seq<Variant>) returns (result: map<string, Parameter>)
    requires |configs| > 0
    ensures result == Shared(configs)
  {
    result := map[];
    var startParams := configs[0].definition.parameters;
    var rest := startParams.Keys;
    while rest != {}
      invariant rest <= startParams.Keys
      invariant forall k :: k in result <==>
        k in startParams && k !in rest && SharedParameter(configs, k, startParams[k])
      invariant forall k :: k in result ==> result[k] == startParams[k]
    {
      var name :| name in rest;
      var shared := IsSharedParameter(configs[1..], name, startParams[name]);
      assert shared <==> SharedParameter(configs, name, startParams[name]) by {
        assert forall c :: c in configs <==> c == configs[0] || c in configs[1..];
      }
      if shared {
        result := result[name := startParams[name]];
      }
      rest := rest - {name};
    }
  }

  // ---------------------------------------------------------------------------
  // Base and overrides
  // ---------------------------------------------------------------------------

  predicate SharesNothing(check: PropertyCheck, shared: map<string, Parameter>) {
    && |shared| == 0
    && (!check.foundName || !check.shareName)
    && (!check.foundTemplate || !check.shareTemplate)
    && (!check.foundSkip || !check.shareSkip)
  }

  /** What a variant keeps once the base has the shared values; nothing if the base has all of it. */
  function Reduced(d: Definition, check: PropertyCheck, shared: map<string, Parameter>): Option<Definition> {
    if d.parameters.Keys <= shared.Keys && check.shareName && check.shareSkip && check.shareTemplate then None
    else
      Some(Definition(
             if check.shareName then None else d.name,
             d.parameters - shared.Keys,
             if check.shareTemplate then "" else d.template,
             if check.shareSkip then None else d.skip))
  }

  method CreateConfigDefinitionWithoutSharedValues(toReduce: Definition, check: PropertyCheck,
                                                   shared: map<string, Parameter>)
    returns (result: Option<Definition>)
    ensures result == Reduced(toReduce, check, shared)
  {
    var allParametersShared := true;
    var reducedParameters: map<string, Parameter> := map[];
    var rest := toReduce.parameters.Keys;
    while rest != {}
      invariant rest <= toReduce.parameters.Keys
      invariant allParametersShared <==> toReduce.parameters.Keys - rest <= shared.Keys
      invariant reducedParameters.Keys == toReduce.parameters.Keys - rest - shared.Keys
      invariant forall k :: k in reducedParameters ==> reducedParameters[k] == toReduce.parameters[k]
    {
      var k :| k in rest;
      if k !in shared {
        allParametersShared := false;
        reducedParameters := reducedParameters[k := toReduce.parameters[k]];
      }
      rest := rest - {k};
    }
    if allParametersShared && check.shareName && check.shareSkip && check.shareTemplate {
      return None;
    }
    assert reducedParameters == toReduce.parameters - shared.Keys;
    var d := EMPTY.(parameters := reducedParameters);
    if !check.shareName {
      d := d.(name := toReduce.name);
    }
    if !check.shareTemplate {
      d := d.(template := toReduce.template);
    }
    if !check.shareSkip {
      d := d.(skip := toReduce.skip);
    }
    result := Some(d);
  }

  method CreateCommonConfigDefinition(check: PropertyCheck, shared: map<string, Parameter>) returns (result: Definition)
    ensures result.name == if check.foundName || check.shareName then check.name else None
    ensures result.template == if check.foundTemplate || check.shareTemplate then check.template else ""
    ensures result.skip == if check.foundSkip || check.shareSkip then check.skip else None
    ensures result.parameters == shared
  {
    result := EMPTY;
    if check.foundName || check.shareName {
      result := result.(name := check.name);
    }
    if check.foundTemplate || check.shareTemplate {
      result := result.(template := check.template);
    }
    if check.foundSkip || check.shareSkip {
      result := result.(skip := check.skip);
    }
    if |shared| > 0 {
      result := result.(parameters := shared);
    }
  }

  /** The common base of some variants: none if they share nothing. */
  ghost function BaseOf(configs: seq<Variant>): Option<Definition> {
    if |configs| == 0 then None
    else if |configs| == 1 then Some(configs[0].definition)
    else
      var check := Check(configs);
      if SharesNothing(check, Shared(configs)) then None
      else Some(Definition(check.name, Shared(configs), check.template, check.skip))
  }

  /** What remains of one of the variants beside the base. */
  ghost function OverrideOf(configs: seq<Variant>, d: Definition): Option<Definition> {
    if |configs| <= 1 then None
    else if SharesNothing(Check(configs), Shared(configs)) then Some(d)
    else Reduced(d, Check(configs), Shared(configs))
  }

  /** The overrides of the first `n` variants, in order. */
  ghost function OverridesOf(configs: seq<Variant>, n: nat): seq<Variant>
    requires n <= |configs|
  {
    if n == 0 then []
    else
      var c := configs[n - 1];
      OverridesOf(configs, n - 1) +
      match OverrideOf(configs, c.definition)
      case None => []
      case Some(d) => [Variant(d, c.group, c.environment)]
  }

  method ExtractCommonBase(configs: seq<Variant>) returns (base: Option<Definition>, reduced: seq<Variant>)
    ensures base == BaseOf(configs)
    ensures reduced == OverridesOf(configs, |configs|)
  {
    if |configs| == 0 {
      return None, [];
    }
    if |configs| == 1 {
      SingleHasNoOverride(configs);
      return Some(configs[0].definition), [];
    }
    var check := TestForSameProperties(configs);
    var shared := ExtractSharedParameters(configs);
    if |shared| == 0 && (!check.foundName || !check.shareName) && (!check.foundTemplate || !check.shareTemplate)
       && (!check.foundSkip || !check.shareSkip)
    {
      AllOverride(configs, |configs|);
      assert configs[..|configs|] == configs;
      return None, configs;
    }
    var common := CreateCommonConfigDefinition(check, shared);
    base := Some(common);
    reduced := ReduceAll(configs, check, shared);
  }

  method ReduceAll(configs: seq<Variant>, check: PropertyCheck, shared: map<string, Parameter>)
      returns (reduced: seq<Variant>)
    requires |configs| > 1 && check == Check(configs) && shared == Shared(configs) && !SharesNothing(check, shared)
    ensures reduced == OverridesOf(configs, |configs|)
  {
    reduced := [];
    for i := 0 to |configs|
      invariant reduced == OverridesOf(configs, i)
    {
      var d := CreateConfigDefinitionWithoutSharedValues(configs[i].definition, check, shared);
      if d.Some? {
        reduced := reduced + [Variant(d.value, configs[i].group, configs[i].environment)];
      }
    }
  }

  lemma SingleHasNoOverride(configs: seq<Variant>)
    requires |configs| == 1
    ensures OverridesOf(configs, 1) == []
  {
    assert OverridesOf(configs, 0) == [];
  }

  lemma {:induction false} AllOverride(configs: seq<Variant>, n: nat)
    requires |configs| > 1 && SharesNothing(Check(configs), Shared(configs)) && n <= |configs|
    ensures OverridesOf(configs, n) == configs[..n]
  {
    if n > 0 {
      AllOverride(configs, n - 1);
      assert configs[..n] == configs[..n - 1] + [configs[n - 1]];
    }
  }

  // ---------------------------------------------------------------------------
  // The whole definition
  // ---------------------------------------------------------------------------

  /** The bases of the groups, taken in some order. */
  ghost function GroupBases(configs: seq<Variant>, order: seq<string>): seq<Variant> {
    if order == [] then []
    else
      var g := order[|order| - 1];
      GroupBases(configs, order[..|order| - 1]) +
      match BaseOf(Members(configs, g))
      case None => []
      case Some(d) => [Variant(d, g, "")]
  }

  ghost function EnvironmentOverrides(configs: seq<Variant>, order: seq<string>): seq<Variant> {
    if order == [] then []
    else
      var members := Members(configs, order[|order| - 1]);
      EnvironmentOverrides(configs, order[..|order| - 1]) + OverridesOf(members, |members|)
  }

  function ByGroup(reduced: seq<Variant>): seq<Override> {
    seq(|reduced|, i requires 0 <= i < |reduced| => Override(reduced[i].group, reduced[i].definition))
  }

  function ByEnvironment(reduced: seq<Variant>): seq<Override> {
    seq(|reduced|, i requires 0 <= i < |reduced| => Override(reduced[i].environment, reduced[i].definition))
  }

  ghost function Factored(configs: seq<Variant>, order: seq<string>): TopLevel {
    var bases := GroupBases(configs, order);
    var base := BaseOf(bases);
    TopLevel(
      if base.Some? then base.value else EMPTY,
      ByGroup(OverridesOf(bases, |bases|)),
      ByEnvironment(EnvironmentOverrides(configs, order)))
  }

  ghost predicate AreFactors(configs: seq<Variant>, order: seq<string>, bases: seq<Variant>, reduced: seq<Variant>) {
    && Lists(order, GroupNames(configs))
    && bases == GroupBases(configs, order)
    && reduced == EnvironmentOverrides(configs, order)
  }

  lemma OneMoreGroup(configs: seq<Variant>, order: seq<string>, done: set<string>, group: string)
    requires Lists(order, done) && group !in done
    ensures Lists(order + [group], done + {group})
    ensures GroupBases(configs, order + [group]) == GroupBases(configs, order) +
      match BaseOf(Members(configs, group))
      case None => []
      case Some(d) => [Variant(d, group, "")]
    ensures EnvironmentOverrides(configs, order + [group])
         == EnvironmentOverrides(configs, order) + OverridesOf(Members(configs, group), |Members(configs, group)|)
  {
    ListsAppend(order, done, [group], {group});
    assert (order + [group])[..|order|] == order;
  }

  /** Bases and environment overrides of all groups, for the order in which the groups happen to be iterated. */
  method FactorGroups(configs: seq<Variant>) returns (bases: seq<Variant>, reduced: seq<Variant>)
    ensures exists order :: AreFactors(configs, order, bases, reduced)
  {
    var groups := GroupByGroups(configs);
    bases, reduced := [], [];
    ghost var order := [];
    ghost var done: set<string> := {};
    var rest := groups.Keys;
    while rest != {}
      invariant rest <= groups.Keys && done == groups.Keys - rest && Lists(order, done)
      invariant bases == GroupBases(configs, order)
      invariant reduced == EnvironmentOverrides(configs, order)
    {
      var group :| group in rest;
      var base, overrides := ExtractCommonBase(groups[group]);
      if base.Some? {
        bases := bases + [Variant(base.value, group, "")];
      }
      reduced := reduced + overrides;
      OneMoreGroup(configs, order, done, group);
      order, done, rest := order + [group], done + {group}, rest - {group};
    }
    assert AreFactors(configs, order, bases, reduced);
  }

  method ToGroupOverrides(reduced: seq<Variant>) returns (overrides: seq<Override>)
    ensures overrides == ByGroup(reduced)
  {
    overrides := [];
    for i := 0 to |reduced|
      invariant |overrides| == i && forall k :: 0 <= k < i ==>
        overrides[k] == Override(reduced[k].group, reduced[k].definition)
    {
      overrides := overrides + [Override(reduced[i].group, reduced[i].definition)];
    }
  }

  method ToEnvironmentOverrides(reduced: seq<Variant>) returns (overrides: seq<Override>)
    ensures overrides == ByEnvironment(reduced)
  {
    overrides := [];
    for i := 0 to |reduced|
      invariant |overrides| == i && forall k :: 0 <= k < i ==>
        overrides[k] == Override(reduced[k].environment, reduced[k].definition)
    {
      overrides := overrides + [Override(reduced[i].environment, reduced[i].definition)];
    }
  }

  ghost predicate FactoredIn(configs: seq<Variant>, order: seq<string>, top: TopLevel) {
    Lists(order, GroupNames(configs)) && top == Factored(configs, order)
  }

  /** `top` is a factored definition of the variants, for some order of the groups. */
  ghost predicate IsFactored(configs: seq<Variant>, top: TopLevel) {
    exists order :: FactoredIn(configs, order, top)
  }

  method ToTopLevelConfigDefinition(configs: seq<Variant>) returns (top: TopLevel)
    requires |configs| > 0
    ensures IsFactored(configs, top)
  {
    var bases, environmentOverrides := FactorGroups(configs);
    ghost var order :| AreFactors(configs, order, bases, environmentOverrides);
    var baseConfig, reducedGroupOverrides := ExtractCommonBase(bases);
    var config := EMPTY;
    if baseConfig.Some? {
      config := baseConfig.value;
    }
    var groupOverrideConfigs := ToGroupOverrides(reducedGroupOverrides);
    var environmentOverrideConfigs := ToEnvironmentOverrides(environmentOverrides);
    top := TopLevel(config, groupOverrideConfigs, environmentOverrideConfigs);
    assert FactoredIn(configs, order, top);
  }
}
