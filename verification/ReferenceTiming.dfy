/** Whether a reference within a config is resolved before its target has its value. */
module ReferenceTiming {
  import opened Digraph
  import opened Entities
  import opened Listings
  import opened ParameterOrder
  import opened ParameterResolution
  import T = TopologySort

  // ---------------------------------------------------------------------------
  // What a parameter sees
  // ---------------------------------------------------------------------------

  function Get(props: Properties, name: string): Option<Value> {
    if name in props then Some(props[name]) else None
  }

  function Stored(props: Properties, name: string, v: Option<Value>): Properties {
    if v.Some? then props[name := v.value] else props
  }

  /** Values stored one after the other under distinct names, or not at all. */
  ghost predicate Stores(states: seq<Properties>, names: seq<string>, values: seq<Option<Value>>) {
    && |states| == |names| + 1 && |values| == |names|
    && states[0] == map[]
    && (forall i :: 0 <= i < |names| ==> states[i + 1] == Stored(states[i], names[i], values[i]))
    && forall i, j :: 0 <= i < j < |names| ==> names[i] != names[j]
  }

  lemma {:induction false} StoredAt(states: seq<Properties>, names: seq<string>, values: seq<Option<Value>>, a: nat,
                                    j: nat)
    requires Stores(states, names, values) && a < |names| && j <= |names|
    ensures Get(states[j], names[a]) == if a < j then values[a] else None
    decreases j
  {
    if j > 0 {
      StoredAt(states, names, values, a, j - 1);
      assert a != j - 1 ==> names[a] != names[j - 1];
    }
  }

  lemma {:induction false} NotStored(states: seq<Properties>, names: seq<string>, values: seq<Option<Value>>, j: nat,
                                     name: string)
    requires Stores(states, names, values) && j <= |names| && name !in names[..j]
    ensures name !in states[j]
    decreases j
  {
    if j > 0 {
      assert names[j - 1] == names[..j][j - 1] && names[..j - 1] == names[..j][..j - 1];
      NotStored(states, names, values, j - 1, name);
    }
  }

  lemma ResolveLast(conf: Coordinate, entities: EntityTable, resolver: Resolver, front: seq<NamedParameter>,
                    last: NamedParameter)
    ensures ResolveAll(conf, entities, resolver, front + [last])
         == ResolveOne(conf, entities, resolver, ResolveAll(conf, entities, resolver, front), last)
  {
    assert (front + [last])[..|front|] == front;
  }

  /** One resolution of a config's parameters in a given order. */
  datatype Run = Run(
    conf: Coordinate,
    entities: EntityTable,
    resolver: Resolver,
    parameters: seq<NamedParameter>
  ) {
    /** The properties that the parameters before `i` left behind. */
    function Seen(i: nat): Properties
      requires i <= |parameters|
    {
      ResolveAll(conf, entities, resolver, parameters[..i]).properties
    }

    /** What parameter `a` stores, if anything. */
    function Outcome(a: nat): Option<Value>
      requires a < |parameters|
    {
      var p := parameters[a];
      if AllReferenceErrors(conf, entities, p.name, p.parameter.GetReferences()) != [] then None
      else StoredValue(conf, entities, resolver, p, Seen(a))
    }

    lemma SeenStep(i: nat)
      requires i < |parameters|
      ensures Seen(i + 1) == Stored(Seen(i), parameters[i].name, Outcome(i))
    {
      assert parameters[..i + 1] == parameters[..i] + [parameters[i]];
      ResolveLast(conf, entities, resolver, parameters[..i], parameters[i]);
    }

    lemma SeenStores() returns (states: seq<Properties>, names: seq<string>, values: seq<Option<Value>>)
      requires DistinctNames(parameters)
      ensures Stores(states, names, values)
      ensures |names| == |parameters| && forall i :: 0 <= i < |names| ==> names[i] == parameters[i].name
      ensures forall i :: 0 <= i < |values| ==> values[i] == Outcome(i)
      ensures forall i :: 0 <= i < |states| ==> states[i] == Seen(i)
    {
      var n := |parameters|;
      states := seq(n + 1, i requires 0 <= i <= n => Seen(i));
      names := seq(n, i requires 0 <= i < n => parameters[i].name);
      values := seq(n, i requires 0 <= i < n => Outcome(i));
      forall i | 0 <= i < n ensures states[i + 1] == Stored(states[i], names[i], values[i]) {
        SeenStep(i);
      }
    }

    /** A parameter is in the properties from its own turn on, with what it stored then. */
    lemma SeenAt(a: nat, j: nat)
      requires DistinctNames(parameters) && a < |parameters| && j <= |parameters|
      ensures Get(Seen(j), parameters[a].name) == if a < j then Outcome(a) else None
    {
      var states, names, values := SeenStores();
      StoredAt(states, names, values, a, j);
    }

    lemma SeenNames(j: nat, name: string)
      requires DistinctNames(parameters)
      requires j <= |parameters| && forall a :: 0 <= a < j ==> parameters[a].name != name
      ensures name !in Seen(j)
    {
      var states, names, values := SeenStores();
      NotStored(states, names, values, j, name);
    }

    /** A lookup before parameter `j` goes through the parameter that the path starts with. */
    lemma FollowSeen(a: nat, j: nat, tail: seq<string>)
      requires DistinctNames(parameters) && a < |parameters| && j <= |parameters|
      ensures Follow([parameters[a].name] + tail, Nested(Seen(j))) ==
        match if a < j then Outcome(a) else None
        case None => None
        case Some(v) => Follow(tail, v)
    {
      SeenAt(a, j);
      FollowStep(parameters[a].name, tail, Seen(j));
    }
  }

  // ---------------------------------------------------------------------------
  // What the stored values are
  // ---------------------------------------------------------------------------

  /** `w` has the maps of `v` and its texts, escaped, along the path. */
  predicate EscapedAt(escape: string -> string, v: Value, w: Value, path: seq<string>) {
    match Follow(path, v)
    case None => Follow(path, w) == None
    case Some(Scalar(text)) => Follow(path, w) == Some(Scalar(escape(text)))
    case Some(Nested(fields)) =>
      Follow(path, w).Some? && Follow(path, w).value.Nested? && Follow(path, w).value.fields.Keys == fields.Keys
  }

  lemma {:induction false} EscapedTexts(escape: string -> string, v: Value, path: seq<string>)
    ensures EscapedAt(escape, v, Escaped(escape, v), path)
    decreases |path|
  {
    if path != [] && v.Nested? && path[0] in v.fields {
      EscapedTexts(escape, v.fields[path[0]], path[1..]);
    }
  }

  /** The value of a parameter, given all final properties: a value with its texts escaped, the value that a
      reference leads to in the config itself or in another one, or a text made from exactly the properties that
      the parameter refers to. */
  ghost predicate IsValueOf(conf: Coordinate, entities: EntityTable, resolver: Resolver, p: NamedParameter,
                            final: Properties, w: Value) {
    match p.parameter
    case ValueParameter(v) => forall path :: EscapedAt(resolver.escape, v, w, path)
    case ReferenceParameter(r) =>
      if r.config == conf then Follow(PathOf(r.property), Nested(final)) == Some(w)
      else
        && r.config in entities
        && Follow(PathOf(r.property), Nested(entities[r.config].properties)) == Some(w)
    case OtherParameter(rs) =>
      exists values :: AreReferenced(rs, final, values) && TextValue(resolver.other(p, values)) == Some(w)
  }

  /** The values are those of exactly the properties that the references name. */
  ghost predicate AreReferenced(rs: seq<ParameterReference>, final: Properties, values: Properties) {
    && (forall k :: k in values <==> exists r :: r in rs && r.property == k)
    && forall k :: k in values ==> k in final && values[k] == final[k]
  }

  /** Properties once stored stay. */
  lemma SeenGrows(run: Run, a: nat, n: nat)
    requires DistinctNames(run.parameters) && a <= n <= |run.parameters|
    ensures forall k :: k in run.Seen(a) ==> k in run.Seen(n) && run.Seen(n)[k] == run.Seen(a)[k]
  {
    forall k | k in run.Seen(a) ensures k in run.Seen(n) && run.Seen(n)[k] == run.Seen(a)[k] {
      if c: nat :| c < a && run.parameters[c].name == k {
        run.SeenAt(c, a);
        run.SeenAt(c, n);
        assert Get(run.Seen(a), k) == Get(run.Seen(n), k);
      } else {
        run.SeenNames(a, k);
        assert false;
      }
    }
  }

  lemma FollowInMore(path: seq<string>, some: Properties, more: Properties)
    requires path != [] && forall k :: k in some ==> k in more && more[k] == some[k]
    ensures Follow(path, Nested(some)).Some? ==> Follow(path, Nested(more)) == Follow(path, Nested(some))
  {
  }

  /** What is in the final properties under a name: the value of that parameter, and for the name of the
      config its text. */
  lemma StoredMeans(run: Run, a: nat) returns (w: Value)
    requires DistinctNames(run.parameters) && a < |run.parameters| && run.Outcome(a).Some?
    ensures
      IsValueOf(run.conf, run.entities, run.resolver, run.parameters[a], run.Seen(|run.parameters|), w)
    ensures Get(run.Seen(|run.parameters|), run.parameters[a].name) ==
      Some(if run.parameters[a].name == "name" then Scalar(run.resolver.nameToString(w)) else w)
  {
    var p := run.parameters[a];
    var seen, final := run.Seen(a), run.Seen(|run.parameters|);
    run.SeenAt(a, |run.parameters|);
    w := ResolveParameter(run.conf, run.entities, run.resolver, p, seen).value;
    SeenGrows(run, a, |run.parameters|);
    match p.parameter
    case ValueParameter(v) =>
      forall path ensures EscapedAt(run.resolver.escape, v, w, path) {
        EscapedTexts(run.resolver.escape, v, path);
      }
    case ReferenceParameter(r) =>
      LookupFollowsPath(r.property, seen);
      FollowInMore(PathOf(r.property), seen, final);
      if r.config in run.entities {
        LookupFollowsPath(r.property, run.entities[r.config].properties);
      }
    case OtherParameter(rs) =>
      ReferencedValuesAre(rs, seen, final);
      assert AreReferenced(rs, final, ReferencedValues(rs, seen));
  }

  /** Nothing is wrong with the references of the parameter, and what they lead to is there. */
  ghost predicate IsResolvable(conf: Coordinate, entities: EntityTable, resolver: Resolver, p: NamedParameter,
                               seen: Properties) {
    match p.parameter
    case ValueParameter(_) => true
    case ReferenceParameter(r) =>
      && IsValid(conf, entities, p.name, r)
      && Follow(PathOf(r.property), Nested(if r.config == conf then seen else entities[r.config].properties)).Some?
    case OtherParameter(rs) =>
      && (forall r :: r in rs ==> IsValid(conf, entities, p.name, r))
      && exists values :: AreReferenced(rs, seen, values) && resolver.other(p, values).Some?
  }

  /** A reference to another parameter of the config, or to a config that is there and not skipped. */
  predicate IsValid(conf: Coordinate, entities: EntityTable, name: string, r: ParameterReference) {
    if r.config == conf then r.property != name else r.config in entities && !entities[r.config].skip
  }

  lemma ReferenceStoredIff(run: Run, a: nat, r: ParameterReference)
    requires a < |run.parameters| && run.parameters[a].parameter == ReferenceParameter(r)
    ensures run.Outcome(a).Some? <==>
      IsResolvable(run.conf, run.entities, run.resolver, run.parameters[a], run.Seen(a))
  {
    NoErrors(run.conf, run.entities, run.parameters[a].name, [r]);
    assert [r][0] in [r];
    LookupFollowsPath(r.property, run.Seen(a));
    if r.config in run.entities {
      LookupFollowsPath(r.property, run.entities[r.config].properties);
    }
  }

  /** A parameter is stored exactly when it is resolvable from the properties before it. */
  lemma StoredIff(run: Run, a: nat)
    requires a < |run.parameters|
    ensures run.Outcome(a).Some? <==>
      IsResolvable(run.conf, run.entities, run.resolver, run.parameters[a], run.Seen(a))
  {
    match run.parameters[a].parameter
    case ValueParameter(v) => ValueStored(run, a, v);
    case ReferenceParameter(r) => ReferenceStoredIff(run, a, r);
    case OtherParameter(rs) => OtherStoredIff(run, a, rs);
  }

  lemma ValueStored(run: Run, a: nat, v: Value)
    requires a < |run.parameters| && run.parameters[a].parameter == ValueParameter(v)
    ensures run.Outcome(a).Some?
  {
  }

  lemma OtherStoredIff(run: Run, a: nat, rs: seq<ParameterReference>)
    requires a < |run.parameters| && run.parameters[a].parameter == OtherParameter(rs)
    ensures run.Outcome(a).Some? <==>
      IsResolvable(run.conf, run.entities, run.resolver, run.parameters[a], run.Seen(a))
  {
    NoErrors(run.conf, run.entities, run.parameters[a].name, rs);
    OtherResolvable(run.resolver, run.parameters[a], rs, run.Seen(a));
  }

  lemma OtherResolvable(resolver: Resolver, p: NamedParameter, rs: seq<ParameterReference>, seen: Properties)
    ensures (exists values :: AreReferenced(rs, seen, values) && resolver.other(p, values).Some?) <==>
      (forall r :: r in rs ==> r.property in seen) && resolver.other(p, ReferencedValues(rs, seen)).Some?
  {
    forall values | AreReferenced(rs, seen, values)
      ensures values == ReferencedValues(rs, seen) && forall r :: r in rs ==> r.property in seen
    {
      assert forall r :: r in rs ==> r.property in values;
    }
    if forall r :: r in rs ==> r.property in seen {
      ReferencedValuesAre(rs, seen, seen);
    }
  }

  lemma OneReportedIff(conf: Coordinate, entities: EntityTable, resolver: Resolver, before: Resolution,
                       p: NamedParameter)
    ensures ResolveOne(conf, entities, resolver, before, p).errors == [] <==>
      && before.errors == []
      && AllReferenceErrors(conf, entities, p.name, p.parameter.GetReferences()) == []
      && StoredValue(conf, entities, resolver, p, before.properties).Some?
  {
  }

  lemma ReportedNext(run: Run, n: nat)
    requires n < |run.parameters|
    ensures NothingReported(run, n + 1) <==> NothingReported(run, n) && run.Outcome(n).Some?
  {
    var front, last := run.parameters[..n], run.parameters[n];
    assert run.parameters[..n + 1] == front + [last];
    ResolveLast(run.conf, run.entities, run.resolver, front, last);
    OneReportedIff(run.conf, run.entities, run.resolver, ResolveAll(run.conf, run.entities, run.resolver, front), last);
  }

  predicate NothingReported(run: Run, n: nat)
    requires n <= |run.parameters|
  {
    ResolveAll(run.conf, run.entities, run.resolver, run.parameters[..n]).errors == []
  }

  lemma {:induction false} AllSoFar(silent: seq<bool>, stored: seq<bool>, n: nat)
    requires |silent| == |stored| + 1 && n <= |stored| && silent[0]
    requires forall i :: 0 <= i < |stored| ==> (silent[i + 1] <==> silent[i] && stored[i])
    ensures silent[n] <==> forall a :: 0 <= a < n ==> stored[a]
  {
    if n > 0 {
      AllSoFar(silent, stored, n - 1);
    }
  }

  /** Nothing is reported exactly when every parameter is resolvable from the properties before it. */
  lemma NothingReportedIff(run: Run)
    ensures ResolveAll(run.conf, run.entities, run.resolver, run.parameters).errors == [] <==>
      forall a :: 0 <= a < |run.parameters| ==>
        IsResolvable(run.conf, run.entities, run.resolver, run.parameters[a], run.Seen(a))
  {
    var n := |run.parameters|;
    var silent := seq(n + 1, i requires 0 <= i <= n => NothingReported(run, i));
    var stored := seq(n, i requires 0 <= i < n => run.Outcome(i).Some?);
    forall i | 0 <= i < n ensures silent[i + 1] <==> silent[i] && stored[i] {
      ReportedNext(run, i);
    }
    AllSoFar(silent, stored, n);
    assert run.parameters[..n] == run.parameters;
    forall a | 0 <= a < n
      ensures stored[a] <==> IsResolvable(run.conf, run.entities, run.resolver, run.parameters[a], run.Seen(a))
    {
      StoredIff(run, a);
    }
  }

  /** The properties have the value of the parameter, or its text for the name of the config. */
  ghost predicate HasItsValue(conf: Coordinate, entities: EntityTable, resolver: Resolver, p: NamedParameter,
                              props: Properties) {
    exists w :: IsValueOf(conf, entities, resolver, p, props, w)
      && Get(props, p.name) == Some(if p.name == "name" then Scalar(resolver.nameToString(w)) else w)
  }

  lemma AllHaveTheirValues(run: Run, a: nat)
    requires DistinctNames(run.parameters) && a < |run.parameters|
    requires ResolveAll(run.conf, run.entities, run.resolver, run.parameters).errors == []
    ensures
      var all := ResolveAll(run.conf, run.entities, run.resolver, run.parameters).properties;
      HasItsValue(run.conf, run.entities, run.resolver, run.parameters[a], all)
  {
    var n := |run.parameters|;
    assert run.parameters[..n] == run.parameters;
    ResolvedWithoutErrors(run.conf, run.entities, run.resolver, run.parameters, a);
    run.SeenAt(a, n);
    var w := StoredMeans(run, a);
  }

  lemma ReferencedValuesAre(rs: seq<ParameterReference>, seen: Properties, final: Properties)
    requires forall r :: r in rs ==> r.property in seen
    requires forall k :: k in seen ==> k in final && final[k] == seen[k]
    ensures AreReferenced(rs, final, ReferencedValues(rs, seen))
  {
  }

  // ---------------------------------------------------------------------------
  // What a lookup can find under a parameter
  // ---------------------------------------------------------------------------

  /** Something at `path` below parameter `a` is possible in this order: for a value parameter it is there, and
      for a reference within the config it is possible below the parameter, resolved before, that it names. Other
      configs may have anything. The other kinds of parameters are texts and need all that they refer to. */
  predicate CanFind(conf: Coordinate, parameters: seq<NamedParameter>, a: nat, path: seq<string>)
    requires a < |parameters|
    decreases a
  {
    var p := parameters[a];
    && (p.name == "name" ==> path == [])
    && match p.parameter
       case ValueParameter(v) => Follow(path, v).Some?
       case OtherParameter(rs) =>
         path == [] && forall r :: r in rs ==> CanFindFor(conf, parameters, a, [r.property], [])
       case ReferenceParameter(r) =>
         r.config == conf ==> r.property != p.name && CanFindFor(conf, parameters, a, PathOf(r.property), path)
  }

  /** The same below what parameter `a` looks up with a key. */
  predicate CanFindFor(conf: Coordinate, parameters: seq<NamedParameter>, a: nat, key: seq<string>, path: seq<string>)
    requires a < |parameters| && |key| > 0
    decreases a, 0
  {
    exists c: nat :: c < a && parameters[c].name == key[0] && CanFind(conf, parameters, c, key[1..] + path)
  }

  lemma {:induction false} FollowConcat(p: seq<string>, q: seq<string>, v: Value)
    ensures Follow(p + q, v) ==
      match Follow(p, v)
      case None => None
      case Some(w) => Follow(q, w)
    decreases |p|
  {
    if p == [] {
      assert p + q == q;
    } else {
      assert (p + q)[1..] == p[1..] + q;
      if v.Nested? && p[0] in v.fields {
        FollowConcat(p[1..], q, v.fields[p[0]]);
      }
    }
  }

  lemma {:induction false} EscapedFollow(escape: string -> string, path: seq<string>, v: Value)
    ensures Follow(path, Escaped(escape, v)).Some? <==> Follow(path, v).Some?
    decreases |path|
  {
    if path != [] && v.Nested? && path[0] in v.fields {
      EscapedFollow(escape, path[1..], v.fields[path[0]]);
    }
  }

  lemma {:induction false} NoErrors(conf: Coordinate, entities: EntityTable, name: string,
                                    refs: seq<ParameterReference>)
    ensures AllReferenceErrors(conf, entities, name, refs) == [] <==>
      forall r :: r in refs ==> ReferenceErrors(conf, entities, name, r) == []
    decreases |refs|
  {
    if refs != [] {
      var front, last := refs[..|refs| - 1], refs[|refs| - 1];
      NoErrors(conf, entities, name, front);
      assert refs == front + [last];
    }
  }

  /** A stored reference to parameter `c` leads on below `c`. */
  lemma OwnReferenceFinds(run: Run, a: nat, c: nat, path: seq<string>)
    requires DistinctNames(run.parameters) && c < a < |run.parameters|
    requires run.parameters[a].parameter.ReferenceParameter?
    requires var r := run.parameters[a].parameter.reference;
      r.config == run.conf && r.property != run.parameters[a].name && run.parameters[c].name == PathOf(r.property)[0]
    ensures
      var tail := PathOf(run.parameters[a].parameter.reference.property)[1..] + path;
      (run.Outcome(a).Some? && Follow(path, run.Outcome(a).value).Some?) <==>
      && (run.parameters[a].name == "name" ==> path == [])
      && run.Outcome(c).Some? && Follow(tail, run.Outcome(c).value).Some?
  {
    var r := run.parameters[a].parameter.reference;
    OwnReferenceOutcome(run, a, r);
    LookupThrough(run, a, c, r.property, path);
  }

  lemma OwnReferenceOutcome(run: Run, a: nat, r: ParameterReference)
    requires a < |run.parameters| && run.parameters[a].parameter == ReferenceParameter(r)
    requires r.config == run.conf && r.property != run.parameters[a].name
    ensures run.Outcome(a) ==
      match ResolvePropValue(r.property, run.Seen(a))
      case None => None
      case Some(v) => Some(run.resolver.Store(run.parameters[a].name, v))
  {
    NoErrors(run.conf, run.entities, run.parameters[a].name, [r]);
  }

  lemma LookupThrough(run: Run, a: nat, c: nat, property: string, path: seq<string>)
    requires DistinctNames(run.parameters) && c < a < |run.parameters|
    requires run.parameters[c].name == PathOf(property)[0]
    ensures
      var v := ResolvePropValue(property, run.Seen(a));
      var tail := PathOf(property)[1..] + path;
      (v.Some? && Follow(path, v.value).Some?) <==> (run.Outcome(c).Some? && Follow(tail, run.Outcome(c).value).Some?)
  {
    var key := PathOf(property);
    LookupFollowsPath(property, run.Seen(a));
    FollowConcat(key, path, Nested(run.Seen(a)));
    run.FollowSeen(c, a, key[1..] + path);
    Regroup(key, path);
  }

  lemma Regroup(key: seq<string>, path: seq<string>)
    requires |key| > 0
    ensures [key[0]] + (key[1..] + path) == key + path
  {
  }

  /** A reference within the config that is stored names a parameter before it. */
  lemma OwnReferenceTarget(run: Run, a: nat, r: ParameterReference) returns (c: nat)
    requires DistinctNames(run.parameters)
    requires a < |run.parameters| && run.parameters[a].parameter == ReferenceParameter(r)
    requires r.config == run.conf && run.Outcome(a).Some?
    ensures r.property != run.parameters[a].name
    ensures c < a && run.parameters[c].name == PathOf(r.property)[0]
  {
    NoErrors(run.conf, run.entities, run.parameters[a].name, [r]);
    assert r in [r] && [r][0] == r;
    var key := PathOf(r.property);
    LookupFollowsPath(r.property, run.Seen(a));
    if c' :| 0 <= c' < a && run.parameters[c'].name == key[0] {
      c := c';
    } else {
      run.SeenNames(a, key[0]);
      assert false;
    }
  }

  /** A parameter of another kind that is stored has all that it refers to. */
  lemma OtherTarget(run: Run, a: nat, rs: seq<ParameterReference>, r: ParameterReference) returns (c: nat)
    requires DistinctNames(run.parameters) && a < |run.parameters|
    requires run.parameters[a].parameter == OtherParameter(rs) && r in rs && run.Outcome(a).Some?
    ensures c < a && run.parameters[c].name == r.property && run.Outcome(c).Some?
  {
    assert r.property in run.Seen(a);
    if c' :| 0 <= c' < a && run.parameters[c'].name == r.property {
      c := c';
      run.SeenAt(c, a);
    } else {
      run.SeenNames(a, r.property);
      assert false;
    }
  }

  /** Nothing else is ever found, whatever the entities and the resolver. */
  lemma {:induction false} OnlyCanFind(run: Run, a: nat, path: seq<string>)
    requires DistinctNames(run.parameters) && a < |run.parameters|
    requires run.Outcome(a).Some? && Follow(path, run.Outcome(a).value).Some?
    ensures CanFind(run.conf, run.parameters, a, path)
    decreases a
  {
    match run.parameters[a].parameter
    case ValueParameter(v) => EscapedFollow(run.resolver.escape, path, v);
    case OtherParameter(rs) =>
      forall r | r in rs ensures CanFindFor(run.conf, run.parameters, a, [r.property], []) {
        var c := OtherTarget(run, a, rs, r);
        OnlyCanFind(run, c, []);
        assert [r.property][1..] + [] == [];
      }
    case ReferenceParameter(r) =>
      if r.config == run.conf {
        var c := OwnReferenceTarget(run, a, r);
        OwnReferenceFinds(run, a, c, path);
        OnlyCanFind(run, c, PathOf(r.property)[1..] + path);
        assert CanFindFor(run.conf, run.parameters, a, PathOf(r.property), path);
      }
  }

  // ---------------------------------------------------------------------------
  // A resolution in which everything is found
  // ---------------------------------------------------------------------------

  /** The value with every path of up to `depth` of the keys. */
  function Full(keys: set<string>, depth: nat): Value {
    if depth == 0 then Scalar("") else Nested(map k | k in keys :: Full(keys, depth - 1))
  }

  predicate Within(path: seq<string>, keys: set<string>) {
    forall i :: 0 <= i < |path| ==> path[i] in keys
  }

  lemma {:induction false} FollowFull(path: seq<string>, keys: set<string>, depth: nat)
    requires |path| <= depth && Within(path, keys)
    ensures Follow(path, Full(keys, depth)).Some?
    decreases depth
  {
    if path != [] {
      FollowFull(path[1..], keys, depth - 1);
    }
  }

  function ForeignConfigs(conf: Coordinate, parameters: seq<NamedParameter>): set<Coordinate> {
    set i, r | 0 <= i < |parameters| && r in parameters[i].parameter.GetReferences() && r.config != conf :: r.config
  }

  /** Every other config that is referenced is there, with the same properties. */
  function EntitiesWith(conf: Coordinate, parameters: seq<NamedParameter>, props: Properties): EntityTable {
    map k | k in ForeignConfigs(conf, parameters) :: ResolvedEntity(k, props, false)
  }

  /** All segments of all references. */
  function Segments(parameters: seq<NamedParameter>): set<string> {
    set i, r, k | 0 <= i < |parameters| && r in parameters[i].parameter.GetReferences() && 0 <= k < |PathOf(r.property)|
      :: PathOf(r.property)[k]
  }

  /** How far the references of the first `n` parameters lead together. */
  function Reach(parameters: seq<NamedParameter>, n: nat): nat
    requires n <= |parameters|
  {
    if n == 0 then 0
    else
      var p := parameters[n - 1].parameter;
      Reach(parameters, n - 1) + if p.ReferenceParameter? then |PathOf(p.reference.property)| else 0
  }

  lemma {:induction false} ReachGrows(parameters: seq<NamedParameter>, m: nat, n: nat)
    requires m <= n <= |parameters|
    ensures Reach(parameters, m) <= Reach(parameters, n)
    decreases n
  {
    if m < n {
      ReachGrows(parameters, m, n - 1);
    }
  }

  function FullRun(conf: Coordinate, parameters: seq<NamedParameter>, keys: set<string>, depth: nat): Run {
    var entities := EntitiesWith(conf, parameters, Full(keys, depth + 1).fields);
    Run(conf, entities, Resolver(s => s, (_, _) => Some(""), _ => ""), parameters)
  }

  /** What can be found is found there, for keys and a depth that are enough. */
  lemma {:induction false} FullRunFinds(conf: Coordinate, parameters: seq<NamedParameter>, keys: set<string>,
                                        depth: nat, a: nat, path: seq<string>)
    requires DistinctNames(parameters) && a < |parameters| && CanFind(conf, parameters, a, path)
    requires Segments(parameters) <= keys && Within(path, keys) && |path| + Reach(parameters, a + 1) <= depth
    ensures var run := FullRun(conf, parameters, keys, depth);
      run.Outcome(a).Some? && Follow(path, run.Outcome(a).value).Some?
    decreases a, 1
  {
    match parameters[a].parameter
    case ValueParameter(v) => EscapedFollow(s => s, path, v);
    case OtherParameter(rs) =>
      forall r | r in rs
        ensures r.property in FullRun(conf, parameters, keys, depth).Seen(a) && r.property != parameters[a].name
      {
        FullRunHas(conf, parameters, keys, depth, a, rs, r);
      }
      OtherStored(FullRun(conf, parameters, keys, depth), a, rs);
    case ReferenceParameter(r) =>
      if r.config == conf {
        FullRunLeadsOn(conf, parameters, keys, depth, a, r, path);
      } else {
        FullRunForeign(conf, parameters, keys, depth, a, r, path);
      }
  }

  lemma {:induction false} FullRunLeadsOn(conf: Coordinate, parameters: seq<NamedParameter>, keys: set<string>,
                                          depth: nat, a: nat, r: ParameterReference, path: seq<string>)
    requires DistinctNames(parameters) && a < |parameters| && CanFind(conf, parameters, a, path)
    requires Segments(parameters) <= keys && Within(path, keys) && |path| + Reach(parameters, a + 1) <= depth
    requires parameters[a].parameter == ReferenceParameter(r) && r.config == conf
    ensures var run := FullRun(conf, parameters, keys, depth);
      run.Outcome(a).Some? && Follow(path, run.Outcome(a).value).Some?
    decreases a, 0
  {
    var c := OwnReferenceLeadsTo(conf, parameters, a, r, path);
    TailFits(parameters, keys, a, c, r, path);
    FullRunFinds(conf, parameters, keys, depth, c, PathOf(r.property)[1..] + path);
    OwnReferenceFinds(FullRun(conf, parameters, keys, depth), a, c, path);
  }

  lemma LeadsTo(conf: Coordinate, parameters: seq<NamedParameter>, a: nat, key: seq<string>, path: seq<string>)
      returns (c: nat)
    requires a < |parameters| && |key| > 0 && CanFindFor(conf, parameters, a, key, path)
    ensures c < a && parameters[c].name == key[0] && CanFind(conf, parameters, c, key[1..] + path)
  {
    c :| c < a && parameters[c].name == key[0] && CanFind(conf, parameters, c, key[1..] + path);
  }

  lemma OwnReferenceLeadsTo(conf: Coordinate, parameters: seq<NamedParameter>, a: nat, r: ParameterReference,
                            path: seq<string>)
      returns (c: nat)
    requires a < |parameters| && CanFind(conf, parameters, a, path)
    requires parameters[a].parameter == ReferenceParameter(r) && r.config == conf
    ensures parameters[a].name == "name" ==> path == []
    ensures r.property != parameters[a].name
    ensures c < a && parameters[c].name == PathOf(r.property)[0]
    ensures CanFind(conf, parameters, c, PathOf(r.property)[1..] + path)
  {
    c := LeadsTo(conf, parameters, a, PathOf(r.property), path);
  }

  lemma TailFits(parameters: seq<NamedParameter>, keys: set<string>, a: nat, c: nat, r: ParameterReference,
                 path: seq<string>)
    requires c < a < |parameters| && parameters[a].parameter == ReferenceParameter(r)
    requires Segments(parameters) <= keys && Within(path, keys)
    ensures Within(PathOf(r.property)[1..] + path, keys)
    ensures |PathOf(r.property)[1..] + path| + Reach(parameters, c + 1) <= |path| + Reach(parameters, a + 1)
  {
    KeyWithin(parameters, keys, a, r, path);
    ReachGrows(parameters, c + 1, a);
  }

  lemma KeyWithin(parameters: seq<NamedParameter>, keys: set<string>, a: nat, r: ParameterReference, path: seq<string>)
    requires a < |parameters| && parameters[a].parameter == ReferenceParameter(r) && Segments(parameters) <= keys
    requires Within(path, keys)
    ensures Within(PathOf(r.property) + path, keys) && Within(PathOf(r.property)[1..] + path, keys)
    ensures |PathOf(r.property) + path| + Reach(parameters, a) == |path| + Reach(parameters, a + 1)
  {
    var key := PathOf(r.property);
    assert r in parameters[a].parameter.GetReferences();
    forall k | 0 <= k < |key| ensures key[k] in keys {
      assert PathOf(r.property)[k] in Segments(parameters);
    }
  }

  lemma FullRunForeign(conf: Coordinate, parameters: seq<NamedParameter>, keys: set<string>, depth: nat,
                       a: nat, r: ParameterReference, path: seq<string>)
    requires a < |parameters| && (parameters[a].name == "name" ==> path == [])
    requires Segments(parameters) <= keys && Within(path, keys) && |path| + Reach(parameters, a + 1) <= depth
    requires parameters[a].parameter == ReferenceParameter(r) && r.config != conf
    ensures var run := FullRun(conf, parameters, keys, depth);
      run.Outcome(a).Some? && Follow(path, run.Outcome(a).value).Some?
  {
    var props := Full(keys, depth + 1).fields;
    FullHas(parameters, keys, depth, a, r, path);
    ForeignPresent(conf, parameters, a, r, props);
    ForeignStored(FullRun(conf, parameters, keys, depth), a, r, path, props);
  }

  lemma FullHas(parameters: seq<NamedParameter>, keys: set<string>, depth: nat, a: nat, r: ParameterReference,
                path: seq<string>)
    requires a < |parameters| && parameters[a].parameter == ReferenceParameter(r)
    requires Segments(parameters) <= keys && Within(path, keys) && |path| + Reach(parameters, a + 1) <= depth
    ensures Follow(PathOf(r.property) + path, Full(keys, depth + 1)).Some?
  {
    KeyWithin(parameters, keys, a, r, path);
    FollowFull(PathOf(r.property) + path, keys, depth + 1);
  }

  lemma ForeignPresent(conf: Coordinate, parameters: seq<NamedParameter>, a: nat, r: ParameterReference,
                       props: Properties)
    requires a < |parameters| && r in parameters[a].parameter.GetReferences() && r.config != conf
    ensures var entities := EntitiesWith(conf, parameters, props);
      r.config in entities && entities[r.config] == ResolvedEntity(r.config, props, false)
  {
  }

  lemma {:induction false} FullRunHas(conf: Coordinate, parameters: seq<NamedParameter>, keys: set<string>, depth: nat,
                                      a: nat, rs: seq<ParameterReference>, r: ParameterReference)
    requires DistinctNames(parameters) && a < |parameters| && CanFind(conf, parameters, a, [])
    requires Segments(parameters) <= keys && Reach(parameters, a + 1) <= depth
    requires parameters[a].parameter == OtherParameter(rs) && r in rs
    ensures r.property in FullRun(conf, parameters, keys, depth).Seen(a) && r.property != parameters[a].name
    decreases a, 0
  {
    var c := OtherLeadsTo(conf, parameters, a, rs, r);
    FullRunFinds(conf, parameters, keys, depth, c, []);
    FullRun(conf, parameters, keys, depth).SeenAt(c, a);
  }

  lemma OtherLeadsTo(conf: Coordinate, parameters: seq<NamedParameter>, a: nat, rs: seq<ParameterReference>,
                     r: ParameterReference)
      returns (c: nat)
    requires a < |parameters| && CanFind(conf, parameters, a, [])
    requires parameters[a].parameter == OtherParameter(rs) && r in rs
    ensures c < a && parameters[c].name == r.property && CanFind(conf, parameters, c, [])
    ensures Reach(parameters, c + 1) <= Reach(parameters, a + 1)
  {
    assert CanFindFor(conf, parameters, a, [r.property], []);
    c := LeadsTo(conf, parameters, a, [r.property], []);
    assert [r.property][1..] + [] == [];
    ReachGrows(parameters, c + 1, a + 1);
  }

  lemma OtherStored(run: Run, a: nat, rs: seq<ParameterReference>)
    requires a < |run.parameters| && run.parameters[a].parameter == OtherParameter(rs)
    requires forall r :: r in rs ==> r.property in run.Seen(a) && r.property != run.parameters[a].name
    requires forall r :: r in rs && r.config != run.conf ==> r.config in run.entities && !run.entities[r.config].skip
    requires forall p, props :: run.resolver.other(p, props).Some?
    ensures run.Outcome(a).Some?
  {
    NoErrors(run.conf, run.entities, run.parameters[a].name, rs);
  }

  lemma ForeignStored(run: Run, a: nat, r: ParameterReference, path: seq<string>, props: Properties)
    requires a < |run.parameters| && run.parameters[a].parameter == ReferenceParameter(r) && r.config != run.conf
    requires r.config in run.entities && run.entities[r.config] == ResolvedEntity(r.config, props, false)
    requires Follow(PathOf(r.property) + path, Nested(props)).Some?
    requires run.parameters[a].name == "name" ==> path == []
    ensures run.Outcome(a).Some? && Follow(path, run.Outcome(a).value).Some?
  {
    NoErrors(run.conf, run.entities, run.parameters[a].name, [r]);
    LookupFollowsPath(r.property, props);
    FollowConcat(PathOf(r.property), path, Nested(props));
  }

  // ---------------------------------------------------------------------------
  // When no reference comes too early
  // ---------------------------------------------------------------------------

  predicate IsOwnReference(conf: Coordinate, source: NamedParameter, r: ParameterReference) {
    r in source.parameter.GetReferences() && r.config == conf
  }

  /** What a reference reads: a reference parameter looks into the properties, the other kinds take a whole one. */
  function Read(source: NamedParameter, r: ParameterReference, props: Properties): Option<Value> {
    if source.parameter.ReferenceParameter? then ResolvePropValue(r.property, props) else Get(props, r.property)
  }

  function KeyOf(source: NamedParameter, r: ParameterReference): (key: seq<string>)
    ensures |key| > 0
  {
    if source.parameter.ReferenceParameter? then PathOf(r.property) else [r.property]
  }

  lemma ReadFollowsKey(source: NamedParameter, r: ParameterReference, props: Properties)
    ensures Read(source, r, props) == Follow([KeyOf(source, r)[0]] + KeyOf(source, r)[1..], Nested(props))
  {
    var key := KeyOf(source, r);
    assert [key[0]] + key[1..] == key;
    LookupFollowsPath(r.property, props);
    FollowOne(r.property, props);
  }

  /** The reference of parameter `b` is read before parameter `a` is resolved, and could be found there. */
  predicate TooEarly(conf: Coordinate, parameters: seq<NamedParameter>, a: nat, b: nat, r: ParameterReference)
    requires b <= a < |parameters|
  {
    var key := KeyOf(parameters[b], r);
    && IsOwnReference(conf, parameters[b], r)
    && parameters[a].name == key[0]
    && CanFind(conf, parameters, a, key[1..])
  }

  predicate ComesTooEarly(conf: Coordinate, parameters: seq<NamedParameter>, b: nat, r: ParameterReference) {
    exists a :: b <= a < |parameters| && TooEarly(conf, parameters, a, b, r)
  }

  /** The reference gives its own parameter what it gives once everything is resolved. */
  predicate SeesFinal(run: Run, b: nat, r: ParameterReference)
    requires b < |run.parameters|
  {
    Read(run.parameters[b], r, run.Seen(b)) == Read(run.parameters[b], r, run.Seen(|run.parameters|))
  }

  lemma NotTooEarlySees(run: Run, b: nat, r: ParameterReference)
    requires DistinctNames(run.parameters) && b < |run.parameters| && IsOwnReference(run.conf, run.parameters[b], r)
    requires !ComesTooEarly(run.conf, run.parameters, b, r)
    ensures SeesFinal(run, b, r)
  {
    var n := |run.parameters|;
    var key := KeyOf(run.parameters[b], r);
    ReadFollowsKey(run.parameters[b], r, run.Seen(b));
    ReadFollowsKey(run.parameters[b], r, run.Seen(n));
    if a: nat :| a < n && run.parameters[a].name == key[0] {
      run.FollowSeen(a, b, key[1..]);
      run.FollowSeen(a, n, key[1..]);
      if b <= a && run.Outcome(a).Some? && Follow(key[1..], run.Outcome(a).value).Some? {
        assert !TooEarly(run.conf, run.parameters, a, b, r);
        OnlyCanFind(run, a, key[1..]);
      }
    } else {
      run.SeenNames(b, key[0]);
      run.SeenNames(n, key[0]);
      FollowStep(key[0], key[1..], run.Seen(b));
      FollowStep(key[0], key[1..], run.Seen(n));
    }
  }

  lemma TooEarlyMisses(conf: Coordinate, parameters: seq<NamedParameter>, a: nat, b: nat, r: ParameterReference)
      returns (run: Run)
    requires DistinctNames(parameters) && b <= a < |parameters| && TooEarly(conf, parameters, a, b, r)
    ensures run.conf == conf && run.parameters == parameters && !SeesFinal(run, b, r)
  {
    var n := |parameters|;
    var key := KeyOf(parameters[b], r);
    var keys := Segments(parameters) + set k | k in key;
    var depth := |key| + Reach(parameters, a + 1);
    run := FullRun(conf, parameters, keys, depth);
    FullRunFinds(conf, parameters, keys, depth, a, key[1..]);
    run.FollowSeen(a, b, key[1..]);
    run.FollowSeen(a, n, key[1..]);
    ReadFollowsKey(parameters[b], r, run.Seen(b));
    ReadFollowsKey(parameters[b], r, run.Seen(n));
  }

  /** A reference within the config reads the final values, for all entities and all resolvers, exactly when it
      does not name a parameter that is resolved later, or its own, and under which it could find something. */
  lemma SeesFinalIff(conf: Coordinate, parameters: seq<NamedParameter>, b: nat, r: ParameterReference)
    requires DistinctNames(parameters) && b < |parameters| && IsOwnReference(conf, parameters[b], r)
    ensures (forall entities, resolver :: SeesFinal(Run(conf, entities, resolver, parameters), b, r)) <==>
      !ComesTooEarly(conf, parameters, b, r)
  {
    if a :| b <= a < |parameters| && TooEarly(conf, parameters, a, b, r) {
      var run := TooEarlyMisses(conf, parameters, a, b, r);
      assert !SeesFinal(Run(conf, run.entities, run.resolver, parameters), b, r);
    } else {
      forall entities, resolver ensures SeesFinal(Run(conf, entities, resolver, parameters), b, r) {
        NotTooEarlySees(Run(conf, entities, resolver, parameters), b, r);
      }
    }
  }

  // ---------------------------------------------------------------------------
  // In dependency order
  // ---------------------------------------------------------------------------

  /** A reference parameter may name any parameter and lead below its own, which fails in any order. Otherwise it
      may lead below a parameter that is no reference parameter, except with a mere trailing dot for a text, or a
      map without an empty key. The other kinds may refer to anything. */
  predicate Safe(source: NamedParameter, r: ParameterReference, target: NamedParameter) {
    || !source.parameter.ReferenceParameter?
    || source.name == target.name
    || !LeadsBelow(r.property, target.name)
    || match target.parameter
       case ValueParameter(v) => !TrailingDot(r.property, target.name, v)
       case OtherParameter(_) => Cut(r.property).rest != ""
       case ReferenceParameter(_) => false
  }

  /** What a parameter of this kind may resolve to, up to escaping. */
  predicate MayHold(parameter: Parameter, w: Value) {
    match parameter
    case ValueParameter(v) => w == v
    case OtherParameter(_) => w.Scalar?
    case ReferenceParameter(_) => true
  }

  /** Safe references are exactly those that are edges wherever the lookup could find something. */
  lemma SafeIff(source: NamedParameter, r: ParameterReference, target: NamedParameter)
    requires source.parameter.ReferenceParameter? && source.name != target.name
    ensures Safe(source, r, target) <==>
      forall w :: MayHold(target.parameter, w) && ResolvePropValue(r.property, map[target.name := w]).Some? ==>
        Matches(r.property, target)
  {
    var key, name := r.property, target.name;
    if LeadsBelow(key, name) {
      match target.parameter
      case ValueParameter(v) =>
        SearchAgreesIff(key, name, v);
        CutAtFirstDot(name, "");
        assert name + "." + "" == name + ".";
        assert TrailingDot(key, name, v) ==> ResolvePropValue(key, map[name := v]).Some?;
        assert MayHold(target.parameter, v);
      case OtherParameter(_) =>
        assert Cut(key).rest == "" ==> ResolvePropValue(key, map[name := Scalar("")]).Some?;
        assert MayHold(target.parameter, Scalar(""));
      case ReferenceParameter(_) =>
        var v := Along(PathOf(Cut(key).rest));
        FoundBelow(key, name, v);
        assert MayHold(target.parameter, v);
    } else {
      forall w | ResolvePropValue(key, map[name := w]).Some? ensures Matches(key, target) {
        assert key == name && !Cut(key).found;
      }
    }
  }

  predicate SafeIn(parameters: seq<NamedParameter>, source: NamedParameter, r: ParameterReference) {
    forall target :: target in parameters ==> Safe(source, r, target)
  }

  /** In dependency order a safe reference does not come too early. */
  lemma SafeNotTooEarly(conf: Coordinate, parameters: seq<NamedParameter>, a: nat, b: nat, r: ParameterReference)
    requires DistinctNames(parameters) && DependencyOrder(conf, parameters) && b <= a < |parameters|
    requires Safe(parameters[b], r, parameters[a])
    ensures !TooEarly(conf, parameters, a, b, r)
  {
    if TooEarly(conf, parameters, a, b, r) {
      if a == b {
        NotBelowItself(conf, parameters, a, r);
      } else {
        SafeMatches(conf, parameters, a, b, r);
      }
    }
  }

  lemma NotBelowItself(conf: Coordinate, parameters: seq<NamedParameter>, a: nat, r: ParameterReference)
    requires DistinctNames(parameters) && a < |parameters|
    ensures !TooEarly(conf, parameters, a, a, r)
  {
    if IsOwnReference(conf, parameters[a], r) && parameters[a].name == KeyOf(parameters[a], r)[0] {
      var key := KeyOf(parameters[a], r);
      assert !CanFindFor(conf, parameters, a, key, key[1..]) && !CanFindFor(conf, parameters, a, key, []);
    }
  }

  /** A safe reference that could be found under another parameter is an edge. */
  lemma SafeMatches(conf: Coordinate, parameters: seq<NamedParameter>, a: nat, b: nat, r: ParameterReference)
    requires DistinctNames(parameters) && b < a < |parameters| && TooEarly(conf, parameters, a, b, r)
    requires Safe(parameters[b], r, parameters[a])
    ensures RefersTo(parameters[b], conf, parameters[a])
  {
    var target := parameters[a];
    SplitDropped(r.property);
    if parameters[b].parameter.ReferenceParameter? && LeadsBelow(r.property, target.name) {
      MatchesBelow(r.property, target);
    }
    assert Matches(r.property, target);
  }

  lemma MatchesBelow(key: string, target: NamedParameter)
    requires LeadsBelow(key, target.name) && target.parameter.ValueParameter?
    requires !TrailingDot(key, target.name, target.parameter.value)
    requires Follow(PathOf(key)[1..], target.parameter.value).Some?
    ensures Matches(key, target)
  {
    var v := target.parameter.value;
    SearchAgreesIff(key, target.name, v);
    LookupFollowsPath(key, map[target.name := v]);
    SplitDropped(key);
    FollowStep(target.name, PathOf(key)[1..], map[target.name := v]);
    assert PathOf(key) == [target.name] + PathOf(key)[1..];
  }

  /** Any dependency order resolves a safe reference from final values. */
  lemma SafeSeesFinal(run: Run, b: nat, r: ParameterReference)
    requires DistinctNames(run.parameters) && DependencyOrder(run.conf, run.parameters)
    requires b < |run.parameters| && IsOwnReference(run.conf, run.parameters[b], r)
    requires SafeIn(run.parameters, run.parameters[b], r)
    ensures !ComesTooEarly(run.conf, run.parameters, b, r) && SeesFinal(run, b, r)
  {
    forall a | b <= a < |run.parameters| ensures !TooEarly(run.conf, run.parameters, a, b, r) {
      SafeNotTooEarly(run.conf, run.parameters, a, b, r);
    }
    NotTooEarlySees(run, b, r);
  }

  // ---------------------------------------------------------------------------
  // A reference that comes too early
  // ---------------------------------------------------------------------------

  /** A reference below a parameter that is no value parameter can come too early: `b` refers to "a.k", and
      `a` resolves to a map with key `k`, yet the sort puts `b` first and reports no cycle, so `b` is not resolvable.
      In the other order both are. */
  lemma NestedReferenceComesTooEarly(conf: Coordinate, other: Coordinate, resolver: Resolver)
      returns (a: NamedParameter, b: NamedParameter, entities: EntityTable)
    requires conf != other
    ensures a.name != b.name && ReferenceGraph(conf, [a, b]).Acyclic()
    ensures forall sorted :: |sorted| == 2 && UnreferencedLast(conf, [a, b], sorted) ==> sorted == [b, a]
    ensures ComesTooEarly(conf, [b, a], 0, ParameterReference(conf, "a.k"))
    ensures ResolveAll(conf, entities, resolver, [b, a]).errors == [ValueNotResolvable(b.name)]
    ensures ResolveAll(conf, entities, resolver, [a, b]).errors == []
  {
    var fields: Properties := map["k" := Scalar("x")];
    a := NamedParameter("a", ReferenceParameter(ParameterReference(other, "m")));
    b := NamedParameter("b", ReferenceParameter(ParameterReference(conf, "a.k")));
    entities := map[other := ResolvedEntity(other, map["m" := Nested(fields)], false)];
    RefersNowhere(conf, a, b);
    RefersNowhere(conf, b, a);
    NoEdges(conf, a, b);
    BothOrders(conf, entities, resolver, a, b, fields);
    SecondTooEarly(conf, b, a, ParameterReference(conf, "a.k"));
  }

  lemma SecondTooEarly(conf: Coordinate, b: NamedParameter, a: NamedParameter, r: ParameterReference)
    requires b.parameter.ReferenceParameter? && IsOwnReference(conf, b, r) && a.name == Cut(r.property).first != "name"
    requires a.parameter.ReferenceParameter? && a.parameter.reference.config != conf
    ensures ComesTooEarly(conf, [b, a], 0, r)
  {
    SplitDropped(r.property);
    assert [b, a][1] == a && [b, a][0] == b;
    assert TooEarly(conf, [b, a], 1, 0, r);
  }

  lemma BothOrders(conf: Coordinate, entities: EntityTable, resolver: Resolver, a: NamedParameter, b: NamedParameter,
                   fields: Properties)
    requires a.name == "a" && a.parameter.ReferenceParameter? && a.parameter.reference.property == "m"
    requires b == NamedParameter("b", ReferenceParameter(ParameterReference(conf, "a.k"))) && "k" in fields
    requires a.parameter.reference.config != conf && a.parameter.reference.config in entities
    requires entities[a.parameter.reference.config].properties == map["m" := Nested(fields)]
    requires !entities[a.parameter.reference.config].skip
    ensures ResolveAll(conf, entities, resolver, [b, a]).errors == [ValueNotResolvable(b.name)]
    ensures ResolveAll(conf, entities, resolver, [a, b]).errors == []
  {
    DottedKey(fields);
    ResolveTwo(conf, entities, resolver, a, b);
    ResolveTwo(conf, entities, resolver, b, a);
    ResolveReference(conf, entities, resolver, Resolution(map[], []), a);
    ResolveReference(conf, entities, resolver, Resolution(map["a" := Nested(fields)], []), b);
    ResolveReference(conf, entities, resolver, Resolution(map[], []), b);
    ResolveReference(conf, entities, resolver, Resolution(map[], [ValueNotResolvable("b")]), a);
  }

  /** One reference parameter that is not the name and about which nothing is reported. */
  lemma ResolveReference(conf: Coordinate, entities: EntityTable, resolver: Resolver, before: Resolution,
                         p: NamedParameter)
    requires p.parameter.ReferenceParameter? && p.name != "name"
    requires ReferenceErrors(conf, entities, p.name, p.parameter.reference) == []
    ensures ResolveOne(conf, entities, resolver, before, p) ==
      match ResolveParameter(conf, entities, resolver, p, before.properties)
      case None => Resolution(before.properties, before.errors + [ValueNotResolvable(p.name)])
      case Some(v) => Resolution(before.properties[p.name := v], before.errors)
  {
    var refs := [p.parameter.reference];
    assert refs[..0] == [];
    assert AllReferenceErrors(conf, entities, p.name, refs) == [];
  }

  lemma DottedKey(fields: Properties)
    requires "k" in fields
    ensures ResolvePropValue("a.k", map["a" := Nested(fields)]) == Some(fields["k"])
    ensures ResolvePropValue("a.k", map[]) == None
    ensures forall v :: ResolvePropValue("m", map["m" := v]) == Some(v)
  {
    CutAtFirstDot("a", "k");
    assert "a" + "." + "k" == "a.k";
    assert Cut("m") == Pieces("m", "", false) by {
      assert Cut("") == Pieces("", "", false);
    }
  }

  lemma RefersNowhere(conf: Coordinate, source: NamedParameter, target: NamedParameter)
    requires source.parameter.ReferenceParameter? && !target.parameter.ValueParameter?
    requires source.parameter.reference.config == conf ==> source.parameter.reference.property != target.name
    ensures !RefersTo(source, conf, target)
  {
  }

  lemma NoEdges(conf: Coordinate, a: NamedParameter, b: NamedParameter)
    requires !RefersTo(a, conf, b) && !RefersTo(b, conf, a)
    ensures ReferenceGraph(conf, [a, b]).Acyclic()
    ensures forall sorted :: |sorted| == 2 && UnreferencedLast(conf, [a, b], sorted) ==> sorted == [b, a]
  {
    var parameters := [a, b];
    var g := ReferenceGraph(conf, parameters);
    forall i: nat, j: nat ensures !DependsOn(conf, parameters, i, j) {
      assert i < 2 && j < 2 && i != j ==> (i == 0 && j == 1) || (i == 1 && j == 0);
    }
    forall n | n in g.nodes ensures !g.Reaches(n, n) {
      if g.Reaches(n, n) {
        var p := g.ReachesLast(n, n);
        assert false;
      }
    }
    assert Unreferenced(conf, parameters) == {0, 1};
    forall sorted | |sorted| == 2 && UnreferencedLast(conf, parameters, sorted) ensures sorted == [b, a] {
      var leaves :|
        && T.Increasing(leaves, {0, 1}) && |leaves| <= |sorted|
        && forall l :: 0 <= l < |leaves| ==>
             leaves[l] < |parameters| && sorted[|sorted| - 1 - l] == parameters[leaves[l]];
      FirstTwo(leaves);
    }
  }

  lemma FirstTwo(leaves: seq<nat>)
    requires T.Increasing(leaves, {0, 1}) && |leaves| <= 2
    ensures leaves == [0, 1]
  {
    assert 0 in leaves && 1 in leaves;
  }

  lemma ResolveTwo(conf: Coordinate, entities: EntityTable, resolver: Resolver, p: NamedParameter, q: NamedParameter)
    ensures ResolveAll(conf, entities, resolver, [p, q])
         == ResolveOne(conf, entities, resolver, ResolveOne(conf, entities, resolver, Resolution(map[], []), p), q)
  {
    assert [p, q][..1] == [p] && [p][..0] == [];
    assert ResolveAll(conf, entities, resolver, []) == Resolution(map[], []);
    assert ResolveAll(conf, entities, resolver, [p]) == ResolveOne(conf, entities, resolver, Resolution(map[], []), p);
  }

  // ---------------------------------------------------------------------------
  // Sorting and resolving
  // ---------------------------------------------------------------------------

  /** Every reference within the config reads final values, unless it comes too early, which no safe one does. */
  ghost predicate Timely(run: Run, parameters: seq<NamedParameter>) {
    forall b, r :: 0 <= b < |run.parameters| && IsOwnReference(run.conf, run.parameters[b], r) ==>
      && (ComesTooEarly(run.conf, run.parameters, b, r) || SeesFinal(run, b, r))
      && (SafeIn(parameters, run.parameters[b], r) ==> !ComesTooEarly(run.conf, run.parameters, b, r))
  }

  lemma SortedIsTimely(run: Run, parameters: seq<NamedParameter>)
    requires Lists(run.parameters, set p | p in parameters)
    requires DistinctNames(run.parameters) && DependencyOrder(run.conf, run.parameters)
    ensures Timely(run, parameters)
  {
    forall b, r | 0 <= b < |run.parameters| && IsOwnReference(run.conf, run.parameters[b], r)
      ensures ComesTooEarly(run.conf, run.parameters, b, r) || SeesFinal(run, b, r)
      ensures SafeIn(parameters, run.parameters[b], r) ==> !ComesTooEarly(run.conf, run.parameters, b, r)
    {
      if SafeIn(parameters, run.parameters[b], r) {
        SafeSeesFinal(run, b, r);
      } else if !ComesTooEarly(run.conf, run.parameters, b, r) {
        NotTooEarlySees(run, b, r);
      }
    }
  }

  /** Sorts and resolves all parameters of a config. Unless references are cyclic they are resolved in
      dependency order, and then there are properties exactly when nothing is reported on the way. A
      reference within the config reads final values unless it comes too early, which a safe one never does. */
  method ResolveParameterValues(conf: Coordinate, entityLookup: EntityMap, resolver: Resolver,
                                parameters: seq<NamedParameter>)
      returns (properties: Option<Properties>, sorted: seq<NamedParameter>)
    requires DistinctNames(parameters)
    ensures !ReferenceGraph(conf, parameters).Acyclic() ==> properties == None
    ensures ReferenceGraph(conf, parameters).Acyclic() ==>
      && Lists(sorted, set p | p in parameters) && DistinctNames(sorted) && DependencyOrder(conf, sorted)
      && UnreferencedLast(conf, parameters, sorted)
      && properties ==
           (var r := ResolveAll(conf, entityLookup.resolvedEntities, resolver, sorted);
            if r.errors == [] then Some(r.properties) else None)
    ensures ReferenceGraph(conf, parameters).Acyclic() ==>
      Timely(Run(conf, entityLookup.resolvedEntities, resolver, sorted), parameters)
    ensures properties.Some? ==> forall p :: p in parameters ==>
      HasItsValue(conf, entityLookup.resolvedEntities, resolver, p, properties.value)
  {
    var circular;
    sorted, circular := GetSortedParameters(conf, parameters);
    var props, errors := ResolveValues(conf, entityLookup, resolver, sorted);
    properties := if circular == [] && errors == [] then Some(props) else None;
    if circular == [] {
      SortedIsTimely(Run(conf, entityLookup.resolvedEntities, resolver, sorted), parameters);
    }
    if properties.Some? {
      forall p | p in parameters ensures HasItsValue(conf, entityLookup.resolvedEntities, resolver, p, props) {
        assert p in sorted;
        var i :| 0 <= i < |sorted| && sorted[i] == p;
        AllHaveTheirValues(Run(conf, entityLookup.resolvedEntities, resolver, sorted), i);
      }
    }
  }
}
