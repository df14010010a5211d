/** Loading the requested projects of a manifest and, transitively, the projects they depend on. */
module ProjectLoader {
  import opened Digraph
  import opened Entities
  import opened Listings

  /** A loaded config; `scopeIsReference` says that its scope parameter is a reference. */
  datatype Config = Config(coordinate: Coordinate, group: string, environment: string, skip: bool,
                           references: seq<Coordinate>, scopeIsReference: bool)

  datatype ProjectDefinition = ProjectDefinition(name: string, group: string)

  datatype Project = Project(id: string, groupId: string, configs: seq<Config>, dependencies: map<string, seq<string>>)

  datatype LoadError =
    | NoProjects
    | UnknownProject(name: string)
    | LoadFailed(name: string, message: string)
    | DuplicateConfig(coordinate: Coordinate)
    | ScopeIsNoReference(coordinate: Coordinate)

  /** What reading a project's files yields: the configs that could be read, and the errors. */
  datatype Files = Files(configs: seq<Config>, errors: seq<string>)

  /** `Manifest` bundles the inputs of a load. `files` stands for reading a project from disk. */
  datatype Manifest = Manifest(
    projects: map<string, ProjectDefinition>,
    selectedEnvironments: seq<string>,
    files: ProjectDefinition -> Files
  ) {
    /** Project `key` exists, its files can be read and its configs pass the checks. */
    predicate Loads(key: string) {
      key in projects && Readable(files(projects[key]))
    }

    /** A config of project `key` that is not skipped, for a selected environment, refers to project `q`. */
    ghost predicate DependsOn(key: string, q: string) {
      && Loads(key)
      && exists env :: env in selectedEnvironments && Refers(projects[key].name, files(projects[key]).configs, env, q)
    }

    /** The dependencies between projects of the manifest. */
    ghost function DependencyGraph(): Graph<string> {
      Graph(projects.Keys, set p, q | p in projects && q in projects && DependsOn(p, q) :: (p, q))
    }

    /** The requested projects and everything they transitively depend on: the least such set. */
    ghost predicate Wanted(requested: set<string>, key: string) {
      key in projects && (key in requested || exists r :: r in requested && DependencyGraph().Reaches(r, key))
    }
  }

  /** Nothing is wrong with a project's files: no duplicate config and no key user action without a scope reference. */
  predicate Readable(f: Files) {
    f.errors == [] && AllDifferent(f.configs) && forall c :: c in f.configs ==> HasValidScope(c)
  }

  const KEY_USER_ACTIONS_WEB := "key-user-actions-web"

  predicate HasValidScope(c: Config) {
    c.coordinate.configType == KEY_USER_ACTIONS_WEB ==> c.scopeIsReference
  }

  /** Group, environment and coordinate of a config as one text. */
  function FullyQualifiedId(c: Config): string {
    c.group + ":" + c.environment + ":" + c.coordinate.project + ":" + c.coordinate.configType + ":" +
      c.coordinate.configId
  }

  /** The same coordinate for the same environment of the same group. */
  predicate SamePlace(c: Config, d: Config) {
    c.group == d.group && c.environment == d.environment && c.coordinate == d.coordinate
  }

  predicate NoTwoInOnePlace(configs: seq<Config>) {
    forall i, j :: 0 <= i < j < |configs| ==> !SamePlace(configs[i], configs[j])
  }

  /** No part of the id before the last one contains its separator. */
  predicate ColonFree(c: Config) {
    ':' !in c.group && ':' !in c.environment && ':' !in c.coordinate.project && ':' !in c.coordinate.configType
  }

  predicate AllColonFree(configs: seq<Config>) {
    forall i :: 0 <= i < |configs| ==> ColonFree(configs[i])
  }

  /** Texts agree iff they have the same part before their first colon, and the same part behind it. */
  lemma FirstColon(a: string, x: string, b: string, y: string)
    requires ':' !in a && ':' !in b
    ensures a + ":" + x == b + ":" + y <==> a == b && x == y
  {
    var s, t := a + ":" + x, b + ":" + y;
    if s == t {
      ColonAt(a, x);
      ColonAt(b, y);
      assert |a| == |b|;
      assert a == s[..|a|] && x == s[|a| + 1..];
      assert b == t[..|b|] && y == t[|b| + 1..];
    }
  }

  lemma ColonAt(a: string, x: string)
    requires ':' !in a
    ensures var s := a + ":" + x;
      |s| > |a| && s[|a|] == ':' && forall k :: 0 <= k < |a| ==> s[k] != ':'
  {
    var s := a + ":" + x;
    forall k | 0 <= k < |a| ensures s[k] != ':' {
      assert s[k] == a[k] && a[k] in a;
    }
  }

  /** Without further colons two configs have the same id iff they are in the same place. */
  lemma SameIdIff(c: Config, d: Config)
    requires ColonFree(c) && ColonFree(d)
    ensures FullyQualifiedId(c) == FullyQualifiedId(d) <==> SamePlace(c, d)
  {
    var x1, y1 := c.coordinate.configType + ":" + c.coordinate.configId, d.coordinate.configType + ":" +
      d.coordinate.configId;
    var x2, y2 := c.coordinate.project + ":" + x1, d.coordinate.project + ":" + y1;
    var x3, y3 := c.environment + ":" + x2, d.environment + ":" + y2;
    IdParts(c, x1, x2, x3);
    IdParts(d, y1, y2, y3);
    FirstColon(c.group, x3, d.group, y3);
    FirstColon(c.environment, x2, d.environment, y2);
    FirstColon(c.coordinate.project, x1, d.coordinate.project, y1);
    FirstColon(c.coordinate.configType, c.coordinate.configId, d.coordinate.configType, d.coordinate.configId);
  }

  lemma IdParts(c: Config, x1: string, x2: string, x3: string)
    requires x1 == c.coordinate.configType + ":" + c.coordinate.configId
    requires x2 == c.coordinate.project + ":" + x1 && x3 == c.environment + ":" + x2
    ensures FullyQualifiedId(c) == c.group + ":" + x3
  {
  }

  lemma AllDifferentIff(configs: seq<Config>)
    requires AllColonFree(configs)
    ensures AllDifferent(configs) <==> NoTwoInOnePlace(configs)
  {
    forall i, j | 0 <= i < j < |configs|
      ensures FullyQualifiedId(configs[i]) == FullyQualifiedId(configs[j]) <==> SamePlace(configs[i], configs[j])
    {
      SameIdIff(configs[i], configs[j]);
    }
  }

  /** With a colon in a name, configs in different places can have the same id. */
  lemma ColonsCollide(coordinate: Coordinate) returns (c: Config, d: Config)
    ensures FullyQualifiedId(c) == FullyQualifiedId(d)
    ensures c.coordinate == d.coordinate == coordinate && c.group != d.group && c.environment != d.environment
  {
    c := Config(coordinate, "a", "b:c", false, [], false);
    d := Config(coordinate, "a:b", "c", false, [], false);
    assert "a" + ":" + "b:c" == "a:b" + ":" + "c";
    assert "a" != "a:b" && "b:c" != "c" by {
      assert |"a"| == 1 && |"a:b"| == 3 && |"b:c"| == 3 && |"c"| == 1;
    }
  }

  predicate AllDifferent(configs: seq<Config>) {
    forall i, j :: 0 <= i < j < |configs| ==> FullyQualifiedId(configs[i]) != FullyQualifiedId(configs[j])
  }

  /** Some config of the environment that is not skipped refers to the other project `q`. */
  ghost predicate Refers(projectId: string, configs: seq<Config>, env: string, q: string) {
    q != projectId && exists i :: 0 <= i < |configs| && ConfigRefers(configs[i], env, q)
  }

  predicate ConfigRefers(c: Config, env: string, q: string) {
    !c.skip && c.environment == env && exists r :: r in c.references && r.project == q
  }

  function Lookup(deps: map<string, seq<string>>, env: string): seq<string> {
    if env in deps then deps[env] else []
  }

  ghost predicate DependenciesOf(projectId: string, configs: seq<Config>, deps: map<string, seq<string>>) {
    forall env, q :: q in Lookup(deps, env) <==> Refers(projectId, configs, env, q)
  }

  /** `deps` is `before` with the other projects that `c` refers to by its first `n` references. */
  ghost predicate Adds(projectId: string, c: Config, n: nat, before: map<string, seq<string>>,
                       deps: map<string, seq<string>>)
    requires n <= |c.references|
  {
    && (forall env, q :: q in Lookup(deps, env) <==> q in Lookup(before, env) || IsNew(projectId, c, n, env, q))
    && (forall env :: NoDuplicates(Lookup(deps, env)))
  }

  predicate IsNew(projectId: string, c: Config, n: nat, env: string, q: string)
    requires n <= |c.references|
  {
    env == c.environment && q != projectId && InFirst(c.references, n, q)
  }

  /** The other projects referenced per environment, each once, ignoring skipped configs. */
  method ToDependenciesMap(projectId: string, configs: seq<Config>) returns (deps: map<string, seq<string>>)
    ensures DependenciesOf(projectId, configs, deps)
    ensures forall env :: NoDuplicates(Lookup(deps, env))
  {
    deps := map[];
    for i := 0 to |configs|
      invariant DependenciesOf(projectId, configs[..i], deps)
      invariant forall env :: NoDuplicates(Lookup(deps, env))
    {
      var c := configs[i];
      ghost var before := deps;
      if !c.skip {
        for j := 0 to |c.references|
          invariant Adds(projectId, c, j, before, deps)
        {
          var q := c.references[j].project;
          var known := Lookup(deps, c.environment);
          ghost var previous := deps;
          if projectId != q && q !in known {
            AddName(deps, c.environment, q);
            deps := deps[c.environment := known + [q]];
          }
          forall env, x
            ensures x in Lookup(deps, env) <==> x in Lookup(before, env) || IsNew(projectId, c, j + 1, env, x)
          {
            OneMoreReference(c.references, j, x);
            assert x in Lookup(previous, env) <==> x in Lookup(before, env) || IsNew(projectId, c, j, env, x);
          }
        }
      }
      forall env, q ensures q in Lookup(deps, env) <==> Refers(projectId, configs[..i + 1], env, q) {
        OneMoreConfig(projectId, configs, i, env, q);
        assert q in Lookup(before, env) <==> Refers(projectId, configs[..i], env, q);
      }
    }
    assert configs[..|configs|] == configs;
  }

  lemma AddName(deps: map<string, seq<string>>, e: string, q: string)
    requires q !in Lookup(deps, e) && forall env :: NoDuplicates(Lookup(deps, env))
    ensures var deps' := deps[e := Lookup(deps, e) + [q]];
      && (forall env, x :: x in Lookup(deps', env) <==> x in Lookup(deps, env) || (env == e && x == q))
      && (forall env :: NoDuplicates(Lookup(deps', env)))
  {
    var deps' := deps[e := Lookup(deps, e) + [q]];
    assert NoDuplicates(Lookup(deps, e));
    forall env ensures NoDuplicates(Lookup(deps', env)) {
      if env != e {
        assert Lookup(deps', env) == Lookup(deps, env);
      }
    }
  }

  lemma OneMoreReference(references: seq<Coordinate>, j: nat, q: string)
    requires j < |references|
    ensures InFirst(references, j + 1, q) <==> InFirst(references, j, q) || references[j].project == q
  {
  }

  predicate InFirst(references: seq<Coordinate>, n: nat, q: string)
    requires n <= |references|
  {
    exists k :: 0 <= k < n && references[k].project == q
  }

  lemma OneMoreConfig(projectId: string, configs: seq<Config>, i: nat, env: string, q: string)
    requires i < |configs|
    ensures Refers(projectId, configs[..i + 1], env, q) <==>
      Refers(projectId, configs[..i], env, q) || (q != projectId && ConfigRefers(configs[i], env, q))
    ensures ConfigRefers(configs[i], env, q) <==>
      !configs[i].skip && env == configs[i].environment && InFirst(configs[i].references, |configs[i].references|, q)
  {
    var refs := configs[i].references;
    if k :| 0 <= k < |refs| && refs[k].project == q {
      assert refs[k] in refs;
    }
    var shorter, longer := configs[..i], configs[..i + 1];
    assert longer == shorter + [configs[i]];
    if k :| 0 <= k < |shorter| && ConfigRefers(shorter[k], env, q) {
      assert ConfigRefers(longer[k], env, q);
    }
    if ConfigRefers(configs[i], env, q) {
      assert ConfigRefers(longer[i], env, q);
    }
    if k :| 0 <= k < |longer| && ConfigRefers(longer[k], env, q) {
      if k < i {
        assert ConfigRefers(shorter[k], env, q);
      }
    }
  }

  /** An earlier config has the same fully qualified id. */
  predicate Repeats(configs: seq<Config>, i: nat)
    requires i < |configs|
  {
    exists k :: 0 <= k < i && FullyQualifiedId(configs[k]) == FullyQualifiedId(configs[i])
  }

  /** One error for each of the first `n` configs that repeats an earlier one, in order. */
  function Duplicates(configs: seq<Config>, n: nat): seq<LoadError>
    requires n <= |configs|
  {
    if n == 0 then []
    else
      var own := if Repeats(configs, n - 1) then [DuplicateConfig(configs[n - 1].coordinate)] else [];
      Duplicates(configs, n - 1) + own
  }

  lemma {:induction false} NoDuplicatesIff(configs: seq<Config>, n: nat)
    requires n <= |configs|
    ensures Duplicates(configs, n) == [] <==> AllDifferent(configs[..n])
  {
    if n > 0 {
      NoDuplicatesIff(configs, n - 1);
      DifferentGrows(configs, n - 1);
    }
  }

  method FindDuplicatedConfigIdentifiers(configs: seq<Config>) returns (errs: seq<LoadError>)
    ensures errs == Duplicates(configs, |configs|)
    ensures errs == [] <==> AllDifferent(configs)
    ensures AllColonFree(configs) ==> (errs == [] <==> NoTwoInOnePlace(configs))
    ensures AllColonFree(configs) ==> forall e :: e in errs <==>
      exists i :: 0 <= i < |configs| && FollowsItself(configs, i) && e == DuplicateConfig(configs[i].coordinate)
  {
    errs := [];
    var coordinates: set<string> := {};
    for i := 0 to |configs|
      invariant forall x :: x in coordinates <==> exists k :: 0 <= k < i && FullyQualifiedId(configs[k]) == x
      invariant errs == Duplicates(configs, i)
    {
      var id := FullyQualifiedId(configs[i]);
      if id in coordinates {
        errs := errs + [DuplicateConfig(configs[i].coordinate)];
      }
      coordinates := coordinates + {id};
    }
    NoDuplicatesIff(configs, |configs|);
    assert configs[..|configs|] == configs;
    if AllColonFree(configs) {
      AllDifferentIff(configs);
      DuplicatesAre(configs, |configs|);
    }
  }

  /** An earlier config is in the same place. */
  predicate FollowsItself(configs: seq<Config>, i: nat)
    requires i < |configs|
  {
    exists k :: 0 <= k < i && SamePlace(configs[k], configs[i])
  }

  lemma RepeatsIff(configs: seq<Config>, i: nat)
    requires i < |configs| && AllColonFree(configs)
    ensures Repeats(configs, i) <==> FollowsItself(configs, i)
  {
    forall k | 0 <= k < i
      ensures FullyQualifiedId(configs[k]) == FullyQualifiedId(configs[i]) <==> SamePlace(configs[k], configs[i])
    {
      SameIdIff(configs[k], configs[i]);
    }
  }

  lemma {:induction false} DuplicatesAre(configs: seq<Config>, n: nat)
    requires n <= |configs| && AllColonFree(configs)
    ensures forall e :: e in Duplicates(configs, n) <==>
      exists i :: 0 <= i < n && FollowsItself(configs, i) && e == DuplicateConfig(configs[i].coordinate)
  {
    if n > 0 {
      DuplicatesAre(configs, n - 1);
      RepeatsIff(configs, n - 1);
    }
  }

  lemma DifferentGrows(configs: seq<Config>, i: nat)
    requires i < |configs|
    ensures AllDifferent(configs[..i + 1]) <==> AllDifferent(configs[..i]) && !Repeats(configs, i)
  {
    var shorter, longer := configs[..i], configs[..i + 1];
    assert longer == shorter + [configs[i]];
    if k :| 0 <= k < i && FullyQualifiedId(configs[k]) == FullyQualifiedId(configs[i]) {
      assert longer[k] == configs[k] && longer[i] == configs[i];
    }
  }

  /** A project that loads has no two configs with one coordinate for the same environment of a group. */
  lemma CoordinatesAreUnique(configs: seq<Config>, i: nat, j: nat)
    requires AllDifferent(configs) && i < j < |configs|
    requires configs[i].group == configs[j].group && configs[i].environment == configs[j].environment
    ensures configs[i].coordinate != configs[j].coordinate
  {
    assert FullyQualifiedId(configs[i]) != FullyQualifiedId(configs[j]);
  }

  /** One error for each key user action config whose scope is no reference. */
  method CheckKeyUserActionScope(configs: seq<Config>) returns (errs: seq<LoadError>)
    ensures errs == [] <==> forall c :: c in configs ==> HasValidScope(c)
    ensures forall e :: e in errs <==>
      exists c :: c in configs && !HasValidScope(c) && e == ScopeIsNoReference(c.coordinate)
  {
    errs := [];
    for i := 0 to |configs|
      invariant errs == [] <==> forall k :: 0 <= k < i ==> HasValidScope(configs[k])
      invariant forall e :: e in errs <==>
        exists k :: 0 <= k < i && !HasValidScope(configs[k]) && e == ScopeIsNoReference(configs[k].coordinate)
    {
      if configs[i].coordinate.configType == KEY_USER_ACTIONS_WEB && !configs[i].scopeIsReference {
        errs := errs + [ScopeIsNoReference(configs[i].coordinate)];
      }
    }
  }

  /** Files are fine when they can be read, no coordinate occurs twice for one environment of a group, and
      every key user action has a reference as its scope. */
  predicate FilesAreFine(f: Files) {
    && f.errors == [] && NoTwoInOnePlace(f.configs)
    && forall c :: c in f.configs && c.coordinate.configType == "key-user-actions-web" ==> c.scopeIsReference
  }

  lemma ReadableIff(f: Files)
    requires AllColonFree(f.configs)
    ensures Readable(f) <==> FilesAreFine(f)
  {
    AllDifferentIff(f.configs);
  }

  /** Reads one project; any error leaves nothing of it. */
  method LoadProject(m: Manifest, definition: ProjectDefinition)
      returns (project: Option<Project>, errs: seq<LoadError>)
    ensures errs == [] <==> Readable(m.files(definition))
    ensures AllColonFree(m.files(definition).configs) ==> (errs == [] <==> FilesAreFine(m.files(definition)))
    ensures errs == [] <==> project.Some?
    ensures project.Some? ==>
      && project.value.id == definition.name && project.value.groupId == definition.group
      && project.value.configs == m.files(definition).configs
      && DependenciesOf(definition.name, project.value.configs, project.value.dependencies)
  {
    var files := m.files(definition);
    if AllColonFree(files.configs) {
      ReadableIff(files);
    }
    errs := [];
    for i := 0 to |files.errors|
      invariant |errs| == i
    {
      errs := errs + [LoadFailed(definition.name, files.errors[i])];
    }
    var duplicates := FindDuplicatedConfigIdentifiers(files.configs);
    var scopes := CheckKeyUserActionScope(files.configs);
    errs := errs + duplicates + scopes;
    if |errs| > 0 {
      return None, errs;
    }
    var deps := ToDependenciesMap(definition.name, files.configs);
    project := Some(Project(definition.name, definition.group, files.configs, deps));
  }

  // ---------------------------------------------------------------------------
  // The names to start from
  // ---------------------------------------------------------------------------

  predicate IsGroup(m: Manifest, name: string) {
    exists k :: k in m.projects && m.projects[k].group == name
  }

  /** `name` is asked for: everything is when nothing specific is; otherwise a name stands for the project
      of that name or, failing that, for the projects of the group of that name. */
  predicate Requested(m: Manifest, specific: seq<string>, name: string) {
    if specific == [] then name in m.projects
    else exists i :: 0 <= i < |specific| && NameMeans(m, specific[i], name)
  }

  predicate NameMeans(m: Manifest, specific: string, name: string) {
    if specific in m.projects then name == specific
    else exists k :: k in m.projects && m.projects[k].group == specific && m.projects[k].name == name
  }

  predicate AllKnown(m: Manifest, specific: seq<string>) {
    forall i :: 0 <= i < |specific| ==> specific[i] in m.projects || IsGroup(m, specific[i])
  }

  method GetProjectNamesToLoad(m: Manifest, specific: seq<string>) returns (names: seq<string>, errs: seq<LoadError>)
    ensures forall n :: n in names <==> Requested(m, specific, n)
    ensures errs == [] <==> AllKnown(m, specific)
  {
    names, errs := [], [];
    if specific == [] {
      var todo := m.projects.Keys;
      while todo != {}
        invariant todo <= m.projects.Keys
        invariant forall n :: n in names <==> n in m.projects && n !in todo
      {
        var k :| k in todo;
        names := names + [k];
        todo := todo - {k};
      }
      return;
    }
    for i := 0 to |specific|
      invariant forall n :: n in names <==> exists k :: 0 <= k < i && NameMeans(m, specific[k], n)
      invariant errs == [] <==> forall k :: 0 <= k < i ==> specific[k] in m.projects || IsGroup(m, specific[k])
    {
      if specific[i] in m.projects {
        names := names + [specific[i]];
        continue;
      }
      var members, found := GroupMembers(m, specific[i]);
      names := names + members;
      if !found {
        errs := errs + [UnknownProject(specific[i])];
      }
    }
  }

  /** The names of all projects in a group. */
  method GroupMembers(m: Manifest, group: string) returns (members: seq<string>, found: bool)
    ensures forall n :: n in members <==>
      exists k :: k in m.projects && m.projects[k].group == group && m.projects[k].name == n
    ensures found <==> IsGroup(m, group)
  {
    members, found := [], false;
    var todo := m.projects.Keys;
    while todo != {}
      invariant todo <= m.projects.Keys
      invariant forall n :: n in members <==>
        exists k :: k in m.projects && k !in todo && m.projects[k].group == group && m.projects[k].name == n
      invariant found <==> exists k :: k in m.projects && k !in todo && m.projects[k].group == group
    {
      var k :| k in todo;
      if m.projects[k].group == group {
        members := members + [m.projects[k].name];
        found := true;
      }
      todo := todo - {k};
    }
  }

  // ---------------------------------------------------------------------------
  // The worklist
  // ---------------------------------------------------------------------------

  /** All names a request can resolve to. */
  ghost function RequestedSet(m: Manifest, specific: seq<string>): set<string> {
    set n | n in m.projects.Keys + (set k | k in m.projects :: m.projects[k].name) && Requested(m, specific, n)
  }

  lemma RequestedIsFinite(m: Manifest, specific: seq<string>, n: string)
    ensures n in RequestedSet(m, specific) <==> Requested(m, specific, n)
  {
  }

  /** `project` is what loading `key` yields. */
  ghost predicate IsProject(m: Manifest, key: string, project: Project) {
    && m.Loads(key)
    && project.id == m.projects[key].name && project.groupId == m.projects[key].group
    && project.configs == m.files(m.projects[key]).configs
    && DependenciesOf(project.id, project.configs, project.dependencies)
  }

  /** The state of the worklist: `keys` are the projects loaded so far. */
  ghost predicate Loading(m: Manifest, requested: set<string>, queue: seq<string>, seen: set<string>, keys: seq<string>)
  {
    && NoDuplicates(keys)
    && (forall k :: k in keys <==> k in seen && m.Loads(k))
    && (forall n :: n in requested ==> n in seen || n in queue)
    && (forall p, q :: p in keys && m.DependsOn(p, q) ==> q in seen || q in queue)
    && (forall n :: (n in seen || n in queue) && n in m.projects ==> m.Wanted(requested, n))
  }

  lemma DependencyIsWanted(m: Manifest, requested: set<string>, p: string, q: string)
    requires m.Wanted(requested, p) && m.DependsOn(p, q) && q in m.projects
    ensures m.Wanted(requested, q)
  {
    var g := m.DependencyGraph();
    assert (p, q) in g.edges;
    g.EdgeReaches(p, q);
    if p !in requested {
      var r :| r in requested && g.Reaches(r, p);
      g.ReachesTransitive(r, p, q);
    }
  }

  /** When the queue is empty and everything seen could be loaded, everything wanted has been loaded. */
  lemma WantedIsLoaded(m: Manifest, requested: set<string>, seen: set<string>, keys: seq<string>, key: string)
    requires Loading(m, requested, [], seen, keys) && m.Wanted(requested, key)
    requires forall k :: k in seen && k in m.projects ==> m.Loads(k)
    ensures key in keys
  {
    assert forall n: string :: n !in [];
    if key !in requested {
      var r :| r in requested && m.DependencyGraph().Reaches(r, key);
      var w :| m.DependencyGraph().WalkFromTo(w, r, key);
      WalkIsLoaded(m, requested, seen, keys, w);
    }
  }

  lemma {:induction false} WalkIsLoaded(m: Manifest, requested: set<string>, seen: set<string>, keys: seq<string>,
                                        w: seq<string>)
    requires Loading(m, requested, [], seen, keys) && m.DependencyGraph().IsWalk(w) && |w| > 1 && w[0] in seen
    requires forall k :: k in seen && k in m.projects ==> m.Loads(k)
    ensures w[|w| - 1] in keys
    decreases |w|
  {
    var g := m.DependencyGraph();
    assert (w[0], w[1]) in g.edges;
    assert w[0] in keys && m.DependsOn(w[0], w[1]);
    assert w[1] !in [];
    if |w| > 2 {
      WalkIsLoaded(m, requested, seen, keys, w[1..]);
    }
  }

  /** Adds the dependencies of a loaded project for every selected environment to the queue. */
  method EnqueueDependencies(m: Manifest, key: string, project: Project, queue0: seq<string>)
      returns (queue: seq<string>)
    requires IsProject(m, key, project)
    ensures forall n :: n in queue <==> n in queue0 || m.DependsOn(key, n)
  {
    queue := queue0;
    for i := 0 to |m.selectedEnvironments|
      invariant forall n :: n in queue <==>
        n in queue0 || exists k :: 0 <= k < i && n in Lookup(project.dependencies, m.selectedEnvironments[k])
    {
      queue := queue + Lookup(project.dependencies, m.selectedEnvironments[i]);
    }
    forall n ensures n in queue <==> n in queue0 || m.DependsOn(key, n) {
      if m.DependsOn(key, n) {
        var env :| env in m.selectedEnvironments && Refers(project.id, project.configs, env, n);
        var k :| 0 <= k < |m.selectedEnvironments| && m.selectedEnvironments[k] == env;
        assert n in Lookup(project.dependencies, m.selectedEnvironments[k]);
      }
      if k :| 0 <= k < |m.selectedEnvironments| && n in Lookup(project.dependencies, m.selectedEnvironments[k]) {
        assert m.selectedEnvironments[k] in m.selectedEnvironments;
        assert Refers(project.id, project.configs, m.selectedEnvironments[k], n);
      }
    }
  }

  /** Loads the requested projects and their transitive dependencies. It succeeds exactly when the manifest
      has projects, every request names something, and all wanted projects can be read; then each wanted
      project is loaded once and no other. */
  method LoadProjects(m: Manifest, specific: seq<string>)
      returns (projects: seq<Project>, errs: seq<LoadError>, ghost keys: seq<string>)
    ensures errs == [] <==>
      && m.projects != map[] && AllKnown(m, specific)
      && forall k :: m.Wanted(RequestedSet(m, specific), k) ==> m.Loads(k)
    ensures errs == [] ==> IsLoadResult(m, specific, projects, keys)
    ensures errs != [] ==> projects == []
  {
    projects, keys := [], [];
    if m.projects == map[] {
      errs := [NoProjects];
      return;
    }
    ghost var requested := RequestedSet(m, specific);
    var queue;
    queue, errs := GetProjectNamesToLoad(m, specific);
    ghost var unknown := errs;
    var seen: set<string> := {};
    StartLoading(m, specific, queue);
    while queue != []
      invariant Loading(m, requested, queue, seen, keys)
      invariant |projects| == |keys| && forall i :: 0 <= i < |keys| ==> IsProject(m, keys[i], projects[i])
      invariant errs == [] <==> unknown == [] && forall k :: k in seen && k in m.projects ==> m.Loads(k)
      decreases m.projects.Keys - seen, |queue|
    {
      var name := queue[0];
      ghost var rest, before := queue[1..], seen;
      assert queue == [name] + rest;
      queue := queue[1..];
      if name in seen {
        Drop(m, requested, name, rest, seen, keys);
        continue;
      }
      seen := seen + {name};
      if name !in m.projects {
        Ignore(m, requested, name, rest, before, keys);
        assert m.projects.Keys - seen == m.projects.Keys - before;
        continue;
      }
      assert name in m.projects.Keys - before;
      var project, loadErrs := LoadProject(m, m.projects[name]);
      if |loadErrs| > 0 {
        Ignore(m, requested, name, rest, before, keys);
        errs := errs + loadErrs;
        continue;
      }
      projects := projects + [project.value];
      queue := EnqueueDependencies(m, name, project.value, queue);
      Loaded(m, requested, name, rest, before, keys, queue);
      keys := keys + [name];
    }
    FinishLoading(m, specific, seen, keys, unknown == [], errs == []);
    if errs != [] {
      projects := [];
    }
  }

  /** A project whose names have no colon loads iff its files are fine. */
  lemma LoadsIff(m: Manifest, key: string)
    requires key in m.projects && AllColonFree(m.files(m.projects[key]).configs)
    ensures m.Loads(key) <==> FilesAreFine(m.files(m.projects[key]))
  {
    ReadableIff(m.files(m.projects[key]));
  }

  /** Each wanted project once, and nothing else. */
  ghost predicate IsLoadResult(m: Manifest, specific: seq<string>, projects: seq<Project>, keys: seq<string>) {
    && |projects| == |keys| && NoDuplicates(keys)
    && (forall i :: 0 <= i < |keys| ==> IsProject(m, keys[i], projects[i]))
    && (forall k :: k in keys <==> m.Wanted(RequestedSet(m, specific), k))
  }

  lemma StartLoading(m: Manifest, specific: seq<string>, queue: seq<string>)
    requires forall n :: n in queue <==> Requested(m, specific, n)
    ensures Loading(m, RequestedSet(m, specific), queue, {}, [])
  {
    forall n ensures n in RequestedSet(m, specific) <==> n in queue {
      RequestedIsFinite(m, specific, n);
    }
  }

  lemma Drop(m: Manifest, requested: set<string>, name: string, rest: seq<string>, seen: set<string>, keys: seq<string>)
    requires Loading(m, requested, [name] + rest, seen, keys) && name in seen
    ensures Loading(m, requested, rest, seen, keys)
  {
    assert forall n :: n in [name] + rest <==> n == name || n in rest;
  }

  lemma Ignore(m: Manifest, requested: set<string>, name: string, rest: seq<string>, seen: set<string>,
               keys: seq<string>)
    requires Loading(m, requested, [name] + rest, seen, keys) && !m.Loads(name)
    ensures Loading(m, requested, rest, seen + {name}, keys)
  {
    assert forall n :: n in [name] + rest <==> n == name || n in rest;
  }

  lemma Loaded(m: Manifest, requested: set<string>, name: string, rest: seq<string>, seen: set<string>,
               keys: seq<string>,
               queue: seq<string>)
    requires Loading(m, requested, [name] + rest, seen, keys) && m.Loads(name) && name !in seen
    requires forall n :: n in queue <==> n in rest || m.DependsOn(name, n)
    ensures Loading(m, requested, queue, seen + {name}, keys + [name])
  {
    assert forall n :: n in [name] + rest <==> n == name || n in rest;
    assert m.Wanted(requested, name);
    forall n | n in queue && n in m.projects ensures m.Wanted(requested, n) {
      if n !in rest {
        DependencyIsWanted(m, requested, name, n);
      }
    }
    assert forall k :: k in keys + [name] <==> k in keys || k == name;
  }

  lemma FinishLoading(m: Manifest, specific: seq<string>, seen: set<string>, keys: seq<string>, known: bool, ok: bool)
    requires Loading(m, RequestedSet(m, specific), [], seen, keys)
    requires known <==> AllKnown(m, specific)
    requires ok <==> known && forall k :: k in seen && k in m.projects ==> m.Loads(k)
    ensures ok <==> AllKnown(m, specific) && forall k :: m.Wanted(RequestedSet(m, specific), k) ==> m.Loads(k)
    ensures ok ==> forall k :: k in keys <==> m.Wanted(RequestedSet(m, specific), k)
  {
    var requested := RequestedSet(m, specific);
    if ok {
      forall k | m.Wanted(requested, k) ensures k in keys {
        WantedIsLoaded(m, requested, seen, keys, k);
      }
    }
  }

  /** After a successful load, every project of the manifest that a loaded config refers to, unless that
      config is skipped, is loaded too. */
  lemma ReferencedProjectsAreLoaded(m: Manifest, specific: seq<string>, projects: seq<Project>, keys: seq<string>,
                                    i: nat, c: Config, r: Coordinate)
    requires IsLoadResult(m, specific, projects, keys) && i < |projects|
    requires forall k :: k in m.projects ==> m.projects[k].name == k
    requires c in projects[i].configs && !c.skip && c.environment in m.selectedEnvironments
    requires r in c.references && r.project in m.projects
    ensures r.project in keys
  {
    var key := keys[i];
    assert key in keys && IsProject(m, key, projects[i]);
    if r.project != key {
      var j :| 0 <= j < |projects[i].configs| && projects[i].configs[j] == c;
      assert ConfigRefers(projects[i].configs[j], c.environment, r.project);
      assert Refers(key, projects[i].configs, c.environment, r.project);
      DependencyIsWanted(m, RequestedSet(m, specific), key, r.project);
    }
  }

  /** Conversely, a project that was not asked for is loaded only because some config of another loaded project,
      which is not skipped and is for a selected environment, refers to it. */
  lemma LoadedOnlyIfReferenced(m: Manifest, specific: seq<string>, projects: seq<Project>, keys: seq<string>,
                               key: string)
      returns (i: nat, c: Config, r: Coordinate)
    requires IsLoadResult(m, specific, projects, keys) && key in keys && !Requested(m, specific, key)
    requires forall k :: k in m.projects ==> m.projects[k].name == k
    ensures i < |projects| && keys[i] != key
    ensures c in projects[i].configs && !c.skip && c.environment in m.selectedEnvironments
    ensures r in c.references && r.project == key
  {
    var requested := RequestedSet(m, specific);
    var g := m.DependencyGraph();
    var start :| start in requested && g.Reaches(start, key);
    var p := g.ReachesLast(start, key);
    assert (p, key) in g.edges && m.DependsOn(p, key);
    assert m.Wanted(requested, p) && p in keys;
    i :| 0 <= i < |keys| && keys[i] == p;
    assert IsProject(m, p, projects[i]);
    var env :| env in m.selectedEnvironments && Refers(p, projects[i].configs, env, key);
    var j :| 0 <= j < |projects[i].configs| && ConfigRefers(projects[i].configs[j], env, key);
    c := projects[i].configs[j];
    r :| r in c.references && r.project == key;
  }
}
