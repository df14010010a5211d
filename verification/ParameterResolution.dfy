/** Resolving a config's parameters in the order found for them. */
module ParameterResolution {
  import opened Digraph
  import opened Entities
  import opened Listings
  import opened ParameterOrder
  import T = TopologySort

  type EntityTable = map<Coordinate, ResolvedEntity>

  datatype ResolveError =
    | ReferencesItself(name: string, reference: ParameterReference)
    | ReferencedConfigNotFound(name: string, reference: ParameterReference)
    | ReferencesSkippedConfig(name: string, reference: ParameterReference)
    | ValueNotResolvable(name: string)

  // ---------------------------------------------------------------------------
  // Validating references
  // ---------------------------------------------------------------------------

  /** The errors of one reference: none for other parameters of the same config. */
  function ReferenceErrors(conf: Coordinate, entities: EntityTable, name: string,
                           r: ParameterReference): seq<ResolveError>
  {
    if r.config == conf then if r.property == name then [ReferencesItself(name, r)] else []
    else if r.config !in entities then [ReferencedConfigNotFound(name, r)]
    else if entities[r.config].skip then [ReferencesSkippedConfig(name, r)]
    else []
  }

  function AllReferenceErrors(conf: Coordinate, entities: EntityTable, name: string,
                              refs: seq<ParameterReference>): seq<ResolveError>
  {
    if refs == [] then []
    else
      AllReferenceErrors(conf, entities, name, refs[..|refs| - 1])
      + ReferenceErrors(conf, entities, name, refs[|refs| - 1])
  }

  method ValidateParameterReferences(conf: Coordinate, entityLookup: EntityMap, p: NamedParameter)
      returns (errs: seq<ResolveError>)
    ensures errs == AllReferenceErrors(conf, entityLookup.resolvedEntities, p.name, p.parameter.GetReferences())
  {
    errs := [];
    var refs := p.parameter.GetReferences();
    for i := 0 to |refs|
      invariant errs == AllReferenceErrors(conf, entityLookup.resolvedEntities, p.name, refs[..i])
    {
      assert refs[..i + 1][..i] == refs[..i];
      var r := refs[i];
      if r.config == conf {
        if r.property == p.name {
          errs := errs + [ReferencesItself(p.name, r)];
        }
        continue;
      }
      var entity := entityLookup.GetResolvedEntity(r.config);
      if entity.None? {
        errs := errs + [ReferencedConfigNotFound(p.name, r)];
        continue;
      }
      if entity.value.skip {
        errs := errs + [ReferencesSkippedConfig(p.name, r)];
      }
    }
    assert refs[..|refs|] == refs;
  }

  /** What is reported about a reference: unknown exactly when its config is not in the entity map, skipped
      exactly when it is there as skipped, and itself exactly when it names its own parameter. */
  lemma {:induction false} ReportedIff(conf: Coordinate, entities: EntityTable, name: string,
                                       refs: seq<ParameterReference>, r: ParameterReference)
    ensures ReferencedConfigNotFound(name, r) in AllReferenceErrors(conf, entities, name, refs) <==>
      r in refs && r.config != conf && r.config !in entities
    ensures ReferencesSkippedConfig(name, r) in AllReferenceErrors(conf, entities, name, refs) <==>
      r in refs && r.config != conf && r.config in entities && entities[r.config].skip
    ensures ReferencesItself(name, r) in AllReferenceErrors(conf, entities, name, refs) <==>
      r in refs && r.config == conf && r.property == name
    decreases |refs|
  {
    if refs != [] {
      var front, last := refs[..|refs| - 1], refs[|refs| - 1];
      ReportedIff(conf, entities, name, front, r);
      assert refs == front + [last];
      assert r in refs <==> r in front || r == last;
    }
  }

  // ---------------------------------------------------------------------------
  // Resolving one parameter
  // ---------------------------------------------------------------------------

  /** The escaping of strings, the name conversion, and the kinds of parameters that are not modelled in full:
      they give a text or fail, from the parameters that they list as references. */
  datatype Resolver = Resolver(
    escape: string -> string,
    other: (NamedParameter, Properties) -> Option<string>,
    nameToString: Value -> string
  ) {
    function Store(name: string, v: Value): Value {
      if name == "name" then Scalar(nameToString(v)) else v
    }
  }

  /** Escapes every text in a value; the keys stay. */
  function Escaped(escape: string -> string, v: Value): Value {
    match v
    case Scalar(text) => Scalar(escape(text))
    case Nested(fields) => Nested(map k | k in fields :: Escaped(escape, fields[k]))
  }

  /** Escaping does not change which keys a lookup finds, so sort edges to value parameters hold for their
      resolved values as well. */
  lemma {:induction false} EscapedLookup(escape: string -> string, key: string, props: Properties)
    ensures ResolvePropValue(key, Escaped(escape, Nested(props)).fields).Some? <==> ResolvePropValue(key, props).Some?
    decreases |key|
  {
    var p := Cut(key);
    if p.first in props && props[p.first].Nested? && '.' in p.rest {
      EscapedLookup(escape, p.rest, props[p.first].fields);
    }
  }

  /** The resolved properties that the references name. */
  function ReferencedValues(refs: seq<ParameterReference>, seen: Properties): Properties {
    map k | k in (set r | r in refs :: r.property) && k in seen :: seen[k]
  }

  /** All referenced properties, or none of them when one has not been resolved. */
  method GetReferencedParameterValues(refs: seq<ParameterReference>, seen: Properties)
      returns (values: Option<Properties>)
    ensures values.Some? <==> forall r :: r in refs ==> r.property in seen
    ensures values.Some? ==> values.value == ReferencedValues(refs, seen)
  {
    var found: Properties := map[];
    for i := 0 to |refs|
      invariant forall k :: 0 <= k < i ==> refs[k].property in seen
      invariant found == ReferencedValues(refs[..i], seen)
    {
      var r := refs[i];
      if r.property !in seen {
        return None;
      }
      assert refs[..i + 1] == refs[..i] + [r];
      found := found[r.property := seen[r.property]];
    }
    assert refs[..|refs|] == refs;
    return Some(found);
  }

  /** The value of one parameter, given the properties resolved before it. */
  function ResolveParameter(conf: Coordinate, entities: EntityTable, resolver: Resolver,
                            p: NamedParameter, seen: Properties): Option<Value>
  {
    match p.parameter
    case ValueParameter(v) => Some(Escaped(resolver.escape, v))
    case ReferenceParameter(r) =>
      if r.config == conf then ResolvePropValue(r.property, seen)
      else if r.config in entities then ResolvePropValue(r.property, entities[r.config].properties)
      else None
    case OtherParameter(rs) =>
      if exists r ::
        r in rs && r.property !in seen then None else TextValue(resolver.other(p, ReferencedValues(rs, seen)))
  }

  function TextValue(text: Option<string>): Option<Value> {
    match text
    case None => None
    case Some(s) => Some(Scalar(s))
  }

  method ResolveValue(conf: Coordinate, entityLookup: EntityMap, resolver: Resolver, p: NamedParameter,
                      seen: Properties)
      returns (v: Option<Value>)
    ensures v == ResolveParameter(conf, entityLookup.resolvedEntities, resolver, p, seen)
  {
    match p.parameter
    case ValueParameter(value) => v := Some(Escaped(resolver.escape, value));
    case ReferenceParameter(r) =>
      if r.config == conf {
        v := ResolvePropValue(r.property, seen);
      } else {
        v := entityLookup.GetResolvedProperty(r.config, r.property);
        if r.config in entityLookup.resolvedEntities {
          LookupFollowsPath(r.property, entityLookup.resolvedEntities[r.config].properties);
        }
      }
    case OtherParameter(rs) =>
      var values := GetReferencedParameterValues(rs, seen);
      v := if values.Some? then TextValue(resolver.other(p, values.value)) else None;
  }

  // ---------------------------------------------------------------------------
  // Resolving all parameters
  // ---------------------------------------------------------------------------

  datatype Resolution = Resolution(properties: Properties, errors: seq<ResolveError>)

  /** One parameter after the ones already resolved. */
  function ResolveOne(conf: Coordinate, entities: EntityTable, resolver: Resolver, before: Resolution,
                      p: NamedParameter): Resolution
  {
    var errs := AllReferenceErrors(conf, entities, p.name, p.parameter.GetReferences());
    if errs != [] then Resolution(before.properties, before.errors + errs)
    else match ResolveParameter(conf, entities, resolver, p, before.properties)
      case None => Resolution(before.properties, before.errors + [ValueNotResolvable(p.name)])
      case Some(v) => Resolution(before.properties[p.name := resolver.Store(p.name, v)], before.errors)
  }

  function ResolveAll(conf: Coordinate, entities: EntityTable, resolver: Resolver,
                      parameters: seq<NamedParameter>): Resolution
  {
    if parameters == [] then Resolution(map[], [])
    else
      var front, last := parameters[..|parameters| - 1], parameters[|parameters| - 1];
      ResolveOne(conf, entities, resolver, ResolveAll(conf, entities, resolver, front), last)
  }

  method ResolveValues(conf: Coordinate, entityLookup: EntityMap, resolver: Resolver, parameters: seq<NamedParameter>)
      returns (properties: Properties, errors: seq<ResolveError>)
    ensures Resolution(properties, errors) == ResolveAll(conf, entityLookup.resolvedEntities, resolver, parameters)
  {
    properties, errors := map[], [];
    for i := 0 to |parameters|
      invariant Resolution(properties, errors)
             == ResolveAll(conf, entityLookup.resolvedEntities, resolver, parameters[..i])
    {
      assert parameters[..i + 1][..i] == parameters[..i];
      var p := parameters[i];
      var errs := ValidateParameterReferences(conf, entityLookup, p);
      if errs != [] {
        errors := errors + errs;
        continue;
      }
      var v := ResolveValue(conf, entityLookup, resolver, p, properties);
      if v.None? {
        errors := errors + [ValueNotResolvable(p.name)];
        continue;
      }
      properties := properties[p.name := resolver.Store(p.name, v.value)];
    }
    assert parameters[..|parameters|] == parameters;
  }

  // ---------------------------------------------------------------------------
  // What the resolution looks at
  // ---------------------------------------------------------------------------

  /** Both tables have the same entity, or none, for every other config that the parameters refer to. */
  ghost predicate AgreeOnReferences(conf: Coordinate, a: EntityTable, b: EntityTable, parameters: seq<NamedParameter>) {
    forall i {:trigger parameters[i]} :: 0 <= i < |parameters| ==>
      AgreeOn(conf, a, b, parameters[i].parameter.GetReferences())
  }

  ghost predicate AgreeOn(conf: Coordinate, a: EntityTable, b: EntityTable, refs: seq<ParameterReference>) {
    forall r :: r in refs && r.config != conf ==> SameAt(a, b, r.config)
  }

  predicate SameAt(a: EntityTable, b: EntityTable, k: Coordinate) {
    (k in a <==> k in b) && (k in a && k in b ==> a[k] == b[k])
  }

  lemma {:induction false} ErrorsDependOnReferences(conf: Coordinate, a: EntityTable, b: EntityTable, name: string,
                                                    refs: seq<ParameterReference>)
    requires AgreeOn(conf, a, b, refs)
    ensures AllReferenceErrors(conf, a, name, refs) == AllReferenceErrors(conf, b, name, refs)
    decreases |refs|
  {
    if refs != [] {
      assert refs[|refs| - 1] in refs;
      ErrorsDependOnReferences(conf, a, b, name, refs[..|refs| - 1]);
    }
  }

  /** Properties and errors depend only on the entities at the coordinates that the parameters refer to. */
  lemma {:induction false} ResolutionDependsOnReferences(conf: Coordinate, a: EntityTable, b: EntityTable,
                                                         resolver: Resolver,
                                                         parameters: seq<NamedParameter>)
    requires AgreeOnReferences(conf, a, b, parameters)
    ensures ResolveAll(conf, a, resolver, parameters) == ResolveAll(conf, b, resolver, parameters)
    decreases |parameters|
  {
    if parameters != [] {
      var front, last := parameters[..|parameters| - 1], parameters[|parameters| - 1];
      ResolutionDependsOnReferences(conf, a, b, resolver, front);
      ErrorsDependOnReferences(conf, a, b, last.name, last.parameter.GetReferences());
      if last.parameter.ReferenceParameter? {
        assert last.parameter.reference in last.parameter.GetReferences();
      }
    }
  }

  // ---------------------------------------------------------------------------
  // Resolution in dependency order
  // ---------------------------------------------------------------------------

  /** Without errors every parameter has its value, computed from the parameters before it, and keeps it. */
  lemma {:induction false} ResolvedWithoutErrors(conf: Coordinate, entities: EntityTable, resolver: Resolver,
                                                 parameters: seq<NamedParameter>, i: nat)
    requires DistinctNames(parameters) && i < |parameters|
    requires ResolveAll(conf, entities, resolver, parameters).errors == []
    ensures parameters[i].name in ResolveAll(conf, entities, resolver, parameters).properties
    ensures ResolveAll(conf, entities, resolver, parameters[..i]).errors == []
    ensures
      var seen := ResolveAll(conf, entities, resolver, parameters[..i]).properties;
      Some(ResolveAll(conf, entities, resolver, parameters).properties[parameters[i].name])
        == StoredValue(conf, entities, resolver, parameters[i], seen)
    decreases |parameters|
  {
    var front, last := parameters[..|parameters| - 1], parameters[|parameters| - 1];
    LastStored(conf, entities, resolver, ResolveAll(conf, entities, resolver, front), last);
    if i < |front| {
      assert front[i] == parameters[i] && front[..i] == parameters[..i];
      ResolvedWithoutErrors(conf, entities, resolver, front, i);
      assert last.name != parameters[i].name;
    } else {
      assert parameters[..i] == front && parameters[i] == last;
    }
  }

  lemma LastStored(conf: Coordinate, entities: EntityTable, resolver: Resolver, before: Resolution, p: NamedParameter)
    requires ResolveOne(conf, entities, resolver, before, p).errors == []
    ensures before.errors == []
    ensures
      var v := StoredValue(conf, entities, resolver, p, before.properties);
      v.Some? && ResolveOne(conf, entities, resolver, before, p).properties == before.properties[p.name := v.value]
  {
  }

  function StoredValue(conf: Coordinate, entities: EntityTable, resolver: Resolver,
                       p: NamedParameter, seen: Properties): Option<Value>
  {
    match ResolveParameter(conf, entities, resolver, p, seen)
    case None => None
    case Some(v) => Some(resolver.Store(p.name, v))
  }

  /** A value stays as it was stored. */
  lemma ResolvedStays(conf: Coordinate, entities: EntityTable, resolver: Resolver,
                      parameters: seq<NamedParameter>, i: nat, j: nat)
    requires DistinctNames(parameters) && i < j < |parameters|
    requires ResolveAll(conf, entities, resolver, parameters).errors == []
    ensures
      var seen := ResolveAll(conf, entities, resolver, parameters[..j]).properties;
      var final := ResolveAll(conf, entities, resolver, parameters).properties;
      && parameters[i].name in seen && parameters[i].name in final
      && seen[parameters[i].name] == final[parameters[i].name]
  {
    var before := parameters[..j];
    assert before[i] == parameters[i] && before[..i] == parameters[..i];
    ResolvedWithoutErrors(conf, entities, resolver, parameters, j);
    ResolvedWithoutErrors(conf, entities, resolver, before, i);
    ResolvedWithoutErrors(conf, entities, resolver, parameters, i);
  }

  /** In dependency order, when nothing is reported, every parameter of the same config that a parameter
      refers to already had its final value in the properties when that parameter was resolved. */
  lemma ReferencesResolvedBeforeUse(conf: Coordinate, entities: EntityTable, resolver: Resolver,
                                    parameters: seq<NamedParameter>, a: nat, b: nat)
    requires DistinctNames(parameters) && DependencyOrder(conf, parameters)
    requires a < |parameters| && b < |parameters| && a != b && RefersTo(parameters[b], conf, parameters[a])
    requires ResolveAll(conf, entities, resolver, parameters).errors == []
    ensures a < b
    ensures
      var seen := ResolveAll(conf, entities, resolver, parameters[..b]).properties;
      var final := ResolveAll(conf, entities, resolver, parameters).properties;
      && parameters[a].name in seen && parameters[a].name in final
      && seen[parameters[a].name] == final[parameters[a].name]
  {
    ResolvedStays(conf, entities, resolver, parameters, a, b);
  }
}
