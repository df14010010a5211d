/** The configs of one environment, gathered from all loaded projects, differ in their coordinates. */
module LoadedConfigs {
  import opened Listings
  import G = GraphComponents
  import L = ProjectLoader

  /** What the dependency graph sees of a loaded config. */
  function InGraph(c: L.Config): G.Config {
    G.Config(c.coordinate, c.skip, c.references)
  }

  /** Project and position of a config of the environment. */
  predicate IsOrigin(projects: seq<L.Project>, env: string, o: (nat, nat)) {
    o.0 < |projects| && o.1 < |projects[o.0].configs| && projects[o.0].configs[o.1].environment == env
  }

  /** The configs of the environment from all projects, each once and in any order. */
  ghost predicate Gathered(projects: seq<L.Project>, env: string, origins: seq<(nat, nat)>, configs: seq<G.Config>) {
    && Lists(origins, set p: nat, i: nat | p < |projects| && i < |projects[p].configs| &&
                                           projects[p].configs[i].environment == env :: (p, i))
    && |configs| == |origins|
    && forall k :: 0 <= k < |origins| ==>
         IsOrigin(projects, env, origins[k]) && configs[k] == InGraph(projects[origins[k].0].configs[origins[k].1])
  }

  /** Projects are kept by their names, a config is read under the name of its project, and an environment
      belongs to one group. */
  ghost predicate WellFormed(m: L.Manifest, groups: map<string, string>) {
    && (forall key :: key in m.projects ==> m.projects[key].name == key)
    && forall key, c :: key in m.projects && c in m.files(m.projects[key]).configs ==>
         && c.coordinate.project == m.projects[key].name
         && c.environment in groups && c.group == groups[c.environment]
  }

  /** Two configs of loaded projects in one environment have the same coordinate only if they are the same. */
  lemma SameCoordinateSameOrigin(m: L.Manifest, groups: map<string, string>, specific: seq<string>,
                                 projects: seq<L.Project>, keys: seq<string>, env: string, o: (nat, nat),
                                   o': (nat, nat))
    requires WellFormed(m, groups) && L.IsLoadResult(m, specific, projects, keys)
    requires IsOrigin(projects, env, o) && IsOrigin(projects, env, o')
    requires projects[o.0].configs[o.1].coordinate == projects[o'.0].configs[o'.1].coordinate
    ensures o == o'
  {
    var p, p' := projects[o.0], projects[o'.0];
    var c, c' := p.configs[o.1], p'.configs[o'.1];
    assert L.IsProject(m, keys[o.0], p) && L.IsProject(m, keys[o'.0], p');
    assert c in m.files(m.projects[keys[o.0]]).configs && c' in m.files(m.projects[keys[o'.0]]).configs;
    assert keys[o.0] == c.coordinate.project == keys[o'.0];
    assert o.0 == o'.0;
    if o.1 < o'.1 {
      L.CoordinatesAreUnique(p.configs, o.1, o'.1);
    } else if o'.1 < o.1 {
      L.CoordinatesAreUnique(p.configs, o'.1, o.1);
    }
  }

  /** After a successful load the graph of an environment is built from configs with unique coordinates. */
  lemma LoadedCoordinatesAreUnique(m: L.Manifest, groups: map<string, string>, specific: seq<string>,
                                   projects: seq<L.Project>, keys: seq<string>, env: string,
                                   origins: seq<(nat, nat)>, configs: seq<G.Config>, ignoreSkipped: bool)
    requires WellFormed(m, groups) && L.IsLoadResult(m, specific, projects, keys)
    requires Gathered(projects, env, origins, configs)
    ensures G.UniqueCoordinates(configs, ignoreSkipped)
  {
    forall i, j | G.Included(configs, ignoreSkipped, i) && G.Included(configs, ignoreSkipped, j) && i != j
      ensures configs[i.index].coordinate != configs[j.index].coordinate
    {
      var o, o' := origins[i.index], origins[j.index];
      assert i.index != j.index && o != o';
      if configs[i.index].coordinate == configs[j.index].coordinate {
        SameCoordinateSameOrigin(m, groups, specific, projects, keys, env, o, o');
      }
    }
  }
}
