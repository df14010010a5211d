/** The loader: reapplies base, group override and environment override for one environment. */
module ConfigLoader {
  import opened Entities
  import opened ConfigDefinitions

  datatype Environment = Environment(name: string, group: string)

  datatype Config = Config(environment: Environment, name: Option<Parameter>, parameters: map<string, Parameter>,
                           template: string, skip: bool)

  datatype LoadError = WrongType(message: string) | MissingTemplate | MissingName | Malformed(message: string)

  datatype LoadResult = Loaded(config: Config) | Errors(errors: seq<LoadError>)

  /** Reading of the parts of a definition: what is wrong with a template file, with parameters, with a name. */
  datatype Parser = Parser(
    checkTemplate: string -> Option<LoadError>,
    checkParameters: map<string, Parameter> -> seq<LoadError>,
    checkName: Parameter -> Option<LoadError>,
    nameRequired: bool)

  /** A definition with an override applied: present values win, parameters are merged. */
  function Overridden(base: Definition, override: Definition): Definition {
    Definition(
      if override.name.Some? then override.name else base.name,
      base.parameters + override.parameters,
      if override.template != "" then override.template else base.template,
      if override.skip.Some? then override.skip else base.skip)
  }

  function MaybeOverridden(base: Definition, override: Option<Definition>): Definition {
    if override.Some? then Overridden(base, override.value) else base
  }

  /** The definition that is being put together for one environment. */
  class Draft {
    var name: Option<Parameter>
    var parameters: map<string, Parameter>
    var template: string
    var skip: Option<bool>

    function Value(): Definition
      reads this
    {
      Definition(name, parameters, template, skip)
    }

    constructor ()
      ensures Value() == EMPTY
    {
      name, parameters, template, skip := None, map[], "", None;
    }

    method ApplyOverrides(override: Definition)
      modifies this
      ensures Value() == Overridden(old(Value()), override)
    {
      if override.name.Some? {
        name := override.name;
      }
      if override.template != "" {
        template := override.template;
      }
      if override.skip.Some? {
        skip := override.skip;
      }
      parameters := parameters + override.parameters;
    }
  }

  /** Overrides by key; of two for one key the later one counts. */
  function OverrideMap(overrides: seq<Override>): map<string, Definition> {
    if overrides == [] then map[]
    else
      var last := overrides[|overrides| - 1];
      OverrideMap(overrides[..|overrides| - 1])[last.key := last.definition]
  }

  function Find(overrides: seq<Override>, key: string): Option<Definition> {
    if key in OverrideMap(overrides) then Some(OverrideMap(overrides)[key]) else None
  }

  /** Looking a key up finds the last override for it, at index `i`, or there is none. */
  lemma {:induction false} FindsLast(overrides: seq<Override>, key: string) returns (i: int)
    ensures -1 <= i < |overrides|
    ensures i == -1 <==> Find(overrides, key) == None
    ensures i >= 0 ==> overrides[i] == Override(key, Find(overrides, key).value)
    ensures forall j :: i < j < |overrides| ==> overrides[j].key != key
  {
    if overrides == [] {
      return -1;
    }
    var n := |overrides| - 1;
    if overrides[n].key == key {
      return n;
    }
    i := FindsLast(overrides[..n], key);
  }

  /** `toGroupOverrideMap` and `toEnvironmentOverrideMap`. */
  method ToOverrideMap(overrides: seq<Override>) returns (result: map<string, Definition>)
    ensures result == OverrideMap(overrides)
  {
    result := map[];
    for i := 0 to |overrides|
      invariant result == OverrideMap(overrides[..i])
    {
      assert overrides[..i + 1][..i] == overrides[..i];
      result := result[overrides[i].key := overrides[i].definition];
    }
    assert overrides[..|overrides|] == overrides;
  }

  /** The definition that applies in one environment. */
  function Effected(top: TopLevel, env: Environment): Definition {
    MaybeOverridden(
      MaybeOverridden(Overridden(EMPTY, top.config), Find(top.groupOverrides, env.group)),
      Find(top.environmentOverrides, env.name))
  }

  // ---------------------------------------------------------------------------
  // Which level decides
  // ---------------------------------------------------------------------------

  /** `o` is the definition of the last override for the key, and none if there is none. */
  ghost predicate Applies(overrides: seq<Override>, key: string, o: Option<Definition>) {
    match o
    case None => forall i :: 0 <= i < |overrides| ==> overrides[i].key != key
    case Some(d) => exists i :: IsLastFor(overrides, key, i) && overrides[i].definition == d
  }

  predicate IsLastFor(overrides: seq<Override>, key: string, i: int) {
    0 <= i < |overrides| && overrides[i].key == key && forall j :: i < j < |overrides| ==> overrides[j].key != key
  }

  predicate SetsName(o: Option<Definition>) {
    o.Some? && o.value.name.Some?
  }

  predicate SetsTemplate(o: Option<Definition>) {
    o.Some? && o.value.template != ""
  }

  predicate SetsSkip(o: Option<Definition>) {
    o.Some? && o.value.skip.Some?
  }

  predicate SetsParameter(o: Option<Definition>, k: string) {
    o.Some? && k in o.value.parameters
  }

  /** Name, template, skip and every parameter of `d` are those of the environment override if it sets them,
      otherwise those of the group override if it does, otherwise those of the base. */
  ghost predicate ByPrecedence(base: Definition, group: Option<Definition>, environment: Option<Definition>,
                               d: Definition) {
    && d.name == (if SetsName(environment) then environment.value.name
                  else if SetsName(group) then group.value.name else base.name)
    && d.template == (if SetsTemplate(environment) then environment.value.template
                      else if SetsTemplate(group) then group.value.template else base.template)
    && d.skip == (if SetsSkip(environment) then environment.value.skip
                  else if SetsSkip(group) then group.value.skip else base.skip)
    && forall k ::
         && (k in d.parameters <==> SetsParameter(environment, k) || SetsParameter(group, k) || k in base.parameters)
         && (k in d.parameters ==>
               d.parameters[k] ==
               if SetsParameter(environment, k) then environment.value.parameters[k]
               else if SetsParameter(group, k) then group.value.parameters[k] else base.parameters[k])
  }

  lemma EffectedByPrecedence(top: TopLevel, env: Environment, group: Option<Definition>,
                             environment: Option<Definition>)
    requires Applies(top.groupOverrides, env.group, group) && Applies(top.environmentOverrides, env.name, environment)
    ensures ByPrecedence(top.config, group, environment, Effected(top, env))
  {
    FindApplies(top.groupOverrides, env.group, group);
    FindApplies(top.environmentOverrides, env.name, environment);
  }

  /** What applies is what is found. */
  lemma FindApplies(overrides: seq<Override>, key: string, o: Option<Definition>)
    ensures Applies(overrides, key, o) <==> o == Find(overrides, key)
  {
    var i := FindsLast(overrides, key);
    if o.Some? {
      assert i >= 0 ==> IsLastFor(overrides, key, i);
      forall j | IsLastFor(overrides, key, j) ensures j == i {
      }
    }
  }

  /** What reading the definition `d` yields: the config that it stands for, or what is wrong with its template,
      or with its parameters and its name. */
  predicate ParsedFrom(d: Definition, env: Environment, parser: Parser, r: LoadResult) {
    if d.template == "" then r == Errors([MissingTemplate])
    else match parser.checkTemplate(d.template)
      case Some(e) => r == Errors([e])
      case None =>
        var found := parser.checkParameters(d.parameters);
        match d.name
        case Some(name) =>
          var wrong := parser.checkName(name);
          if wrong.Some? then r == Errors(found + [wrong.value]) else ParsedWithName(d, env, found, r)
        case None => if parser.nameRequired then r ==
          Errors(found + [MissingName]) else ParsedWithName(d, env, found, r)
  }

  predicate ParsedWithName(d: Definition, env: Environment, found: seq<LoadError>, r: LoadResult) {
    match r
    case Errors(errors) => errors == found && found != []
    case Loaded(c) =>
      && found == [] && c.environment == env && c.name == d.name && c.parameters == d.parameters
      && c.template == d.template && (c.skip <==> d.skip == Some(true))
  }

  lemma FromDefinitionIsParsed(d: Definition, env: Environment, parser: Parser)
    ensures ParsedFrom(d, env, parser, FromDefinition(d, env, parser))
  {
  }

  /** `d` is the definition by precedence from the overrides that apply. */
  ghost predicate IsChosen(top: TopLevel, env: Environment, group: Option<Definition>, environment: Option<Definition>,
                           d: Definition) {
    && Applies(top.groupOverrides, env.group, group)
    && Applies(top.environmentOverrides, env.name, environment)
    && ByPrecedence(top.config, group, environment, d)
  }

  /** What an environment gets from a whole definition. */
  ghost predicate ParsedFor(top: TopLevel, env: Environment, parser: Parser, r: LoadResult) {
    forall group, environment, d | IsChosen(top, env, group, environment, d) :: ParsedFrom(d, env, parser, r)
  }

  /** Precedence decides everything. */
  lemma PrecedenceIsUnique(base: Definition, group: Option<Definition>, environment: Option<Definition>,
                           d: Definition, d': Definition)
    requires ByPrecedence(base, group, environment, d) && ByPrecedence(base, group, environment, d')
    ensures d == d'
  {
    assert d.parameters.Keys == d'.parameters.Keys by {
      forall k ensures k in d.parameters <==> k in d'.parameters {
        assert k in d.parameters <==> SetsParameter(environment, k) || SetsParameter(group, k) || k in base.parameters;
      }
    }
    assert d.parameters == d'.parameters;
  }

  /** There is a definition by precedence, and reading it is what the loader does. */
  lemma LoadedByPrecedence(top: TopLevel, env: Environment, parser: Parser)
      returns (group: Option<Definition>, environment: Option<Definition>, d: Definition)
    ensures IsChosen(top, env, group, environment, d)
    ensures ParsedFor(top, env, parser, FromDefinition(Effected(top, env), env, parser))
  {
    group, environment := Find(top.groupOverrides, env.group), Find(top.environmentOverrides, env.name);
    d := Effected(top, env);
    FindApplies(top.groupOverrides, env.group, group);
    FindApplies(top.environmentOverrides, env.name, environment);
    EffectedByPrecedence(top, env, group, environment);
    FromDefinitionIsParsed(d, env, parser);
    forall g, e, d' | IsChosen(top, env, g, e, d') ensures d' == d {
      FindApplies(top.groupOverrides, env.group, g);
      FindApplies(top.environmentOverrides, env.name, e);
      PrecedenceIsUnique(top.config, g, e, d, d');
    }
  }

  // ---------------------------------------------------------------------------
  // Reading the definition of one environment
  // ---------------------------------------------------------------------------

  function ErrorList(error: Option<LoadError>): seq<LoadError> {
    if error.Some? then [error.value] else []
  }

  /** What is wrong with a definition that has a template: the template alone, or parameters and name together. */
  function DefinitionErrors(d: Definition, parser: Parser): seq<LoadError> {
    if parser.checkTemplate(d.template).Some? then ErrorList(parser.checkTemplate(d.template))
    else
      parser.checkParameters(d.parameters) +
      if d.name.Some? then ErrorList(parser.checkName(d.name.value))
      else if parser.nameRequired then [MissingName] else []
  }

  /** The config read from a definition: a missing skip means false, a missing template is the only error then. */
  function FromDefinition(d: Definition, env: Environment, parser: Parser): LoadResult {
    if d.template == "" then Errors([MissingTemplate])
    else if DefinitionErrors(d, parser) != [] then Errors(DefinitionErrors(d, parser))
    else Loaded(Config(env, d.name, d.parameters, d.template, Effective(d.skip)))
  }

  method GetConfigFromDefinition(d: Draft, env: Environment, parser: Parser) returns (r: LoadResult)
    ensures r == FromDefinition(d.Value(), env, parser)
  {
    if d.template == "" {
      return Errors([MissingTemplate]);
    }
    var templateError := parser.checkTemplate(d.template);
    var errs := ErrorList(templateError);
    errs := errs + parser.checkParameters(d.parameters);
    var skipConfig := false;
    if d.skip.Some? {
      skipConfig := d.skip.value;
    }
    if templateError.Some? {
      return Errors([templateError.value]);
    }
    if d.name.Some? {
      errs := errs + ErrorList(parser.checkName(d.name.value));
    } else if parser.nameRequired {
      errs := errs + [MissingName];
    }
    if errs != [] {
      return Errors(errs);
    }
    r := Loaded(Config(env, d.name, d.parameters, d.template, skipConfig));
  }

  method ParseDefinitionForEnvironment(env: Environment, top: TopLevel, groupOverrides: map<string, Definition>,
                                       environmentOverrides: map<string, Definition>, parser: Parser)
    returns (r: LoadResult)
    requires groupOverrides == OverrideMap(top.groupOverrides)
    requires environmentOverrides == OverrideMap(top.environmentOverrides)
    ensures r == FromDefinition(Effected(top, env), env, parser)
    ensures ParsedFor(top, env, parser, r)
  {
    ghost var _, _, _ := LoadedByPrecedence(top, env, parser);
    var draft := new Draft();
    draft.ApplyOverrides(top.config);
    if env.group in groupOverrides {
      draft.ApplyOverrides(groupOverrides[env.group]);
    }
    if env.name in environmentOverrides {
      draft.ApplyOverrides(environmentOverrides[env.name]);
    }
    r := GetConfigFromDefinition(draft, env, parser);
  }

  /** The configs of the results that are one, in order. */
  function ConfigsIn(results: seq<LoadResult>): seq<Config> {
    if results == [] then []
    else
      var last := results[|results| - 1];
      ConfigsIn(results[..|results| - 1]) + if last.Loaded? then [last.config] else []
  }

  /** The errors of the others, in order. */
  function ErrorsIn(results: seq<LoadResult>): seq<LoadError> {
    if results == [] then []
    else
      var last := results[|results| - 1];
      ErrorsIn(results[..|results| - 1]) + if last.Errors? then last.errors else []
  }

  lemma LastIn(before: seq<LoadResult>, r: LoadResult)
    ensures ConfigsIn(before + [r]) == ConfigsIn(before) + if r.Loaded? then [r.config] else []
    ensures ErrorsIn(before + [r]) == ErrorsIn(before) + if r.Errors? then r.errors else []
  {
    assert (before + [r])[..|before|] == before;
  }

  lemma {:induction false} EachResultCounts(results: seq<LoadResult>, i: nat)
    requires i < |results|
    ensures
      match results[i]
      case Loaded(config) => config in ConfigsIn(results)
      case Errors(errors) => errors != [] ==> ErrorsIn(results) != []
    decreases |results|
  {
    if i < |results| - 1 {
      EachResultCounts(results[..|results| - 1], i);
    }
  }

  lemma {:induction false} AllLoaded(results: seq<LoadResult>)
    requires ErrorsIn(results) == [] && forall r :: r in results && r.Errors? ==> r.errors != []
    ensures |ConfigsIn(results)| == |results|
    ensures forall i :: 0 <= i < |results| ==> results[i] == Loaded(ConfigsIn(results)[i])
    decreases |results|
  {
    if results != [] {
      assert results[|results| - 1] in results;
      AllLoaded(results[..|results| - 1]);
    }
  }

  /** What each environment gives. */
  function ResultsOf(top: TopLevel, environments: seq<Environment>, parser: Parser): seq<LoadResult> {
    seq(|environments|, i requires 0 <= i < |environments| =>
      FromDefinition(Effected(top, environments[i]), environments[i], parser))
  }

  /** The configs of the environments that load. */
  function ConfigsOf(top: TopLevel, environments: seq<Environment>, parser: Parser): seq<Config> {
    ConfigsIn(ResultsOf(top, environments, parser))
  }

  /** The errors of the environments that do not. */
  function ErrorsOf(top: TopLevel, environments: seq<Environment>, parser: Parser): seq<LoadError> {
    ErrorsIn(ResultsOf(top, environments, parser))
  }

  lemma ErrorsAreErrors(d: Definition, env: Environment, parser: Parser)
    ensures FromDefinition(d, env, parser).Errors? ==> FromDefinition(d, env, parser).errors != []
  {
  }

  /** Every environment either has its config in the result or contributes an error. */
  lemma EachEnvironmentCounts(top: TopLevel, environments: seq<Environment>, parser: Parser, i: nat)
    requires i < |environments|
    ensures
      match FromDefinition(Effected(top, environments[i]), environments[i], parser)
      case Loaded(config) => config in ConfigsOf(top, environments, parser)
      case Errors(_) => ErrorsOf(top, environments, parser) != []
  {
    ErrorsAreErrors(Effected(top, environments[i]), environments[i], parser);
    EachResultCounts(ResultsOf(top, environments, parser), i);
  }

  /** Without errors the configs are those of all environments, in order. */
  lemma WithoutErrorsAllLoad(top: TopLevel, environments: seq<Environment>, parser: Parser, i: nat)
    requires ErrorsOf(top, environments, parser) == [] && i < |environments|
    ensures |ConfigsOf(top, environments, parser)| == |environments|
    ensures FromDefinition(Effected(top, environments[i]), environments[i], parser)
         == Loaded(ConfigsOf(top, environments, parser)[i])
  {
    var results := ResultsOf(top, environments, parser);
    forall k | 0 <= k < |results| ensures results[k].Errors? ==> results[k].errors != [] {
      ErrorsAreErrors(Effected(top, environments[k]), environments[k], parser);
    }
    AllLoaded(results);
  }

  /** One result for each environment. */
  ghost predicate EachParsed(top: TopLevel, environments: seq<Environment>, parser: Parser, results: seq<LoadResult>) {
    |results| == |environments| &&
    forall i :: 0 <= i < |environments| ==> ParsedFor(top, environments[i], parser, results[i])
  }

  /** Each selected environment is read on its own, by precedence; with a wrong type none is. */
  method ParseConfigEntry(top: TopLevel, typeError: Option<string>, environments: seq<Environment>, parser: Parser)
      returns (results: seq<Config>, errs: seq<LoadError>)
    ensures typeError.Some? ==> results == [] && errs == [WrongType(typeError.value)]
    ensures typeError.None? ==>
      results == ConfigsOf(top, environments, parser) && errs == ErrorsOf(top, environments, parser)
    ensures typeError.None? ==>
      exists parsed ::
        EachParsed(top, environments, parser, parsed) && results == ConfigsIn(parsed) && errs == ErrorsIn(parsed)
  {
    if typeError.Some? {
      return [], [WrongType(typeError.value)];
    }
    var groupOverrides := ToOverrideMap(top.groupOverrides);
    var environmentOverrides := ToOverrideMap(top.environmentOverrides);
    results, errs := [], [];
    ghost var parsed: seq<LoadResult> := [];
    for i := 0 to |environments|
      invariant |parsed| == i && parsed == ResultsOf(top, environments, parser)[..i]
      invariant results == ConfigsIn(parsed) && errs == ErrorsIn(parsed)
    {
      var r := ParseDefinitionForEnvironment(environments[i], top, groupOverrides, environmentOverrides, parser);
      match r {
        case Loaded(config) => results := results + [config];
        case Errors(errors) => errs := errs + errors;
      }
      LastIn(parsed, r);
      parsed := parsed + [r];
    }
    assert parsed == ResultsOf(top, environments, parser);
    forall i | 0 <= i < |environments| ensures ParsedFor(top, environments[i], parser, parsed[i]) {
      var _, _, _ := LoadedByPrecedence(top, environments[i], parser);
    }
    assert EachParsed(top, environments, parser, parsed);
  }
}
