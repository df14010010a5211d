/** The three phases of an account deployment, each run by its own dispatcher over the shared table. */
module AccountDeployer {
  import opened Entities
  import opened Listings
  import opened Dispatcher
  import opened DispatcherSafety
  import opened IdMaps

  datatype Entity = Entity(id: LocalId, name: string)

  datatype ZoneAccess = ZoneAccess(environment: string, zone: string, permissions: seq<string>)

  datatype Group = Group(entity: Entity, permissions: seq<string>, policies: seq<Binding>,
                         environments: seq<EnvironmentAccess>, zones: seq<ZoneAccess>)

  datatype Permission = Permission(name: string, scopeType: string, scope: string)

  datatype User = User(name: string, groups: seq<LocalId>)

  datatype Resources = Resources(
    boundaries: map<string, Entity>,
    policies: map<string, Entity>,
    groups: map<string, Group>,
    users: map<string, User>,
    serviceUsers: seq<User>)

  datatype Fetch<T> = Fetched(value: T) | Failed(err: string)

  /** The identifier that an upsert returned, whether or not it also returned an error. */
  datatype Reply = Reply(id: RemoteId, err: Option<string>)

  /** The answers of the remote side, one for each request a deployment can make. */
  datatype Client = Client(
    accountUuid: string,
    getIds: Kind -> Fetch<map<LocalId, RemoteId>>,
    getManagementZones: Fetch<seq<Zone>>,
    upsert: (Kind, Entity) -> Reply,
    upsertUser: User -> Option<string>,
    upsertServiceUser: User -> Option<string>,
    getServiceUserEmail: User -> Fetch<string>,
    updateAccountPolicyBindings: (RemoteId, map<RemoteId, seq<RemoteId>>) -> Option<string>,
    updateEnvironmentPolicyBindings: (string, RemoteId, map<RemoteId, seq<RemoteId>>) -> Option<string>,
    deleteAllEnvironmentPolicyBindings: RemoteId -> Option<string>,
    updatePermissions: (RemoteId, seq<Permission>) -> Option<string>,
    updateGroupBindings: (string, seq<RemoteId>) -> Option<string>)

  /** An upsert without an error returns an identifier. */
  ghost predicate Honest(c: Client) {
    forall kind, e :: c.upsert(kind, e).err.None? ==> c.upsert(kind, e).id != ""
  }

  // ---------------------------------------------------------------------------
  // Jobs
  // ---------------------------------------------------------------------------

  function FetchJob<T>(reply: Fetch<T>, store: T -> Stored): Job<Stored> {
    match reply
    case Fetched(value) => [Write(store(value)), Send(None)]
    case Failed(err) => [Send(Some(err))]
  }

  /** A failed upsert sends its error and then stores whatever identifier came back all the same. */
  function DeployJob(kind: Kind, id: LocalId, reply: Reply): Job<Stored> {
    ErrorJob(reply.err) + [Write(Ids(kind, map[id := reply.id]))]
  }

  function ErrorJob(err: Option<string>): Job<Stored> {
    if err.Some? then [Send(err)] else []
  }

  ghost predicate Occurs(jobs: seq<Job<Stored>>, a: Action<Stored>) {
    exists j :: 0 <= j < |jobs| && a in jobs[j]
  }

  ghost predicate Silent(jobs: seq<Job<Stored>>) {
    forall e :: !Occurs(jobs, Send(Some(e)))
  }

  /** Adds one job for each entry, in the order in which the map happens to be iterated. */
  method AddJobs<T>(entries: map<string, T>, job: T -> Job<Stored>) returns (jobs: seq<Job<Stored>>)
    ensures forall a :: Occurs(jobs, a) <==> exists key :: key in entries && a in job(entries[key])
    ensures |jobs| == |entries|
  {
    jobs := [];
    var rest := entries.Keys;
    while rest != {}
      invariant rest <= entries.Keys && |jobs| + |rest| == |entries.Keys|
      invariant forall key :: key in entries.Keys - rest ==> job(entries[key]) in jobs
      invariant forall j :: 0 <= j < |jobs| ==> exists key :: key in entries && jobs[j] == job(entries[key])
    {
      var key :| key in rest;
      jobs := jobs + [job(entries[key])];
      rest := rest - {key};
    }
  }

  method AddJobsInOrder<T>(entries: seq<T>, job: T -> Job<Stored>) returns (jobs: seq<Job<Stored>>)
    ensures |jobs| == |entries| && forall j :: 0 <= j < |jobs| ==> jobs[j] == job(entries[j])
  {
    jobs := [];
    for i := 0 to |entries|
      invariant |jobs| == i && forall j :: 0 <= j < i ==> jobs[j] == job(entries[j])
    {
      jobs := jobs + [job(entries[i])];
    }
  }

  // ---------------------------------------------------------------------------
  // What a phase leaves behind
  // ---------------------------------------------------------------------------

  ghost predicate WaitReturned(p: Pool<Stored>, s: State<Stored>) {
    Reachable(p, s) && s.caller.Returned?
  }

  lemma {:induction false} OccurrencesPositive(job: Job<Stored>, n: nat, a: Action<Stored>)
    requires n <= |job|
    ensures Occurrences(job, n, a) > 0 <==> a in job[..n]
  {
    if n > 0 {
      OccurrencesPositive(job, n - 1, a);
      assert job[..n] == job[..n - 1] + [job[n - 1]];
    }
  }

  lemma {:induction false} TotalPositive(jobs: seq<Job<Stored>>, n: nat, a: Action<Stored>)
    requires n <= |jobs|
    ensures Total(jobs, n, a) > 0 <==> Occurs(jobs[..n], a)
  {
    if n > 0 {
      TotalPositive(jobs, n - 1, a);
      OccurrencesPositive(jobs[n - 1], |jobs[n - 1]|, a);
      assert jobs[n - 1][..|jobs[n - 1]|] == jobs[n - 1];
      assert jobs[..n] == jobs[..n - 1] + [jobs[n - 1]];
      OccursLast(jobs[..n - 1], jobs[n - 1], a);
    }
  }

  lemma OccursLast(jobs: seq<Job<Stored>>, job: Job<Stored>, a: Action<Stored>)
    ensures Occurs(jobs + [job], a) <==> Occurs(jobs, a) || a in job
  {
    OccursAppend(jobs, [job], a);
    assert a in job <==> Occurs([job], a) by {
      if a in job {
        assert a in [job][0];
      }
    }
  }

  lemma OccursAppend(a: seq<Job<Stored>>, b: seq<Job<Stored>>, x: Action<Stored>)
    ensures Occurs(a + b, x) <==> Occurs(a, x) || Occurs(b, x)
  {
    if Occurs(a, x) {
      var j :| 0 <= j < |a| && x in a[j];
      assert x in (a + b)[j];
    }
    if Occurs(b, x) {
      var j :| 0 <= j < |b| && x in b[j];
      assert x in (a + b)[|a| + j];
    }
    if Occurs(a + b, x) {
      var j :| 0 <= j < |a + b| && x in (a + b)[j];
      assert if j < |a| then x in a[j] else x in b[j - |a|];
    }
  }

  /** The jobs write identifier `id`. */
  ghost predicate JobsWrite(jobs: seq<Job<Stored>>, kind: Kind, id: LocalId, remote: RemoteId) {
    exists x :: Occurs(jobs, Write(x)) && Writes(x, kind, id) && x.ids[id] == remote
  }

  /** Identifiers that no job writes read as before, all others as one of the values written to them. */
  ghost predicate LookupAfter(v: View, jobs: seq<Job<Stored>>, v': View, kind: Kind, id: LocalId) {
    || JobsWrite(jobs, kind, id, v'.Lookup(kind, id))
    || (v'.Lookup(kind, id) == v.Lookup(kind, id) && forall r :: !JobsWrite(jobs, kind, id, r))
  }

  /** A phase whose wait returned has collected exactly the errors of its jobs and stored exactly their results. */
  lemma PhaseResult(p: Pool<Stored>, s: State<Stored>, v: View, kind: Kind, id: LocalId)
    requires WaitReturned(p, s)
    ensures s.errs == [] <==> Silent(p.jobs)
    ensures LookupAfter(v, p.jobs, v.Replay(s.results), kind, id)
  {
    PhaseStores(p, s);
    PhaseErrors(p, s);
    ReplayLookup(v, s.results, kind, id);
    if i :| 0 <= i < |s.results| && Writes(s.results[i], kind, id)
            && v.Replay(s.results).Lookup(kind, id) == s.results[i].ids[id] {
      assert s.results[i] in s.results;
    }
  }

  lemma PhaseOpenOnlyBefore(p: Pool<Stored>, s: State<Stored>)
    requires WaitReturned(p, s)
    ensures !s.errChOpen
  {
    ReachableInvariant(p, s);
  }

  lemma PhaseStores(p: Pool<Stored>, s: State<Stored>)
    requires WaitReturned(p, s)
    ensures forall x :: x in s.results <==> Occurs(p.jobs, Write(x))
  {
    PhaseOpenOnlyBefore(p, s);
    WaitReturnsEverything(p, s);
    assert p.jobs[..|p.jobs|] == p.jobs;
    forall x ensures x in s.results <==> Occurs(p.jobs, Write(x)) {
      TotalPositive(p.jobs, |p.jobs|, Write(x));
      assert x in s.results <==> multiset(s.results)[x] > 0;
    }
  }

  lemma PhaseErrors(p: Pool<Stored>, s: State<Stored>)
    requires WaitReturned(p, s)
    ensures s.errs == [] <==> Silent(p.jobs)
  {
    PhaseOpenOnlyBefore(p, s);
    WaitReturnsEverything(p, s);
    assert p.jobs[..|p.jobs|] == p.jobs;
    forall e ensures e in s.errs <==> Occurs(p.jobs, Send(Some(e))) {
      TotalPositive(p.jobs, |p.jobs|, Send(Some(e)));
      assert e in s.errs <==> multiset(s.errs)[e] > 0;
    }
    if s.errs != [] {
      assert s.errs[0] in s.errs;
    }
  }

  ghost predicate JobsZone(jobs: seq<Job<Stored>>, z: Zone) {
    exists zs :: Occurs(jobs, Write(Zones(zs))) && z in zs
  }

  lemma PhaseZones(p: Pool<Stored>, s: State<Stored>, v: View, z: Zone)
    requires WaitReturned(p, s)
    ensures z in v.Replay(s.results).mzIds <==> z in v.mzIds || JobsZone(p.jobs, z)
  {
    PhaseStores(p, s);
    ReplayZones(v, s.results, z);
    if i :| 0 <= i < |s.results| && s.results[i].Zones? && z in s.results[i].zones {
      assert Occurs(p.jobs, Write(Zones(s.results[i].zones)));
    }
    if JobsZone(p.jobs, z) {
      var zs :| Occurs(p.jobs, Write(Zones(zs))) && z in zs;
      assert Zones(zs) in s.results;
    }
  }

  lemma SomeMember<T>(s: seq<T>)
    requires s != []
    ensures exists x :: x in s
  {
    assert s[0] in s;
  }

  ghost predicate NoWrites(jobs: seq<Job<Stored>>) {
    forall x :: !Occurs(jobs, Write(x))
  }

  lemma PhaseWithoutWrites(p: Pool<Stored>, s: State<Stored>)
    requires WaitReturned(p, s) && NoWrites(p.jobs)
    ensures s.results == []
  {
    PhaseStores(p, s);
    if s.results != [] {
      SomeMember(s.results);
    }
  }

  // ---------------------------------------------------------------------------
  // When the phases succeed
  // ---------------------------------------------------------------------------

  predicate AllFetched(c: Client) {
    (forall kind: Kind :: c.getIds(kind).Fetched?) && c.getManagementZones.Fetched?
  }

  function EntitiesOf(res: Resources, kind: Kind): map<string, Entity> {
    match kind
    case Boundaries => res.boundaries
    case Policies => res.policies
    case Groups => map key | key in res.groups :: res.groups[key].entity
  }

  predicate Upserted(c: Client, kind: Kind, entities: map<string, Entity>) {
    forall key :: key in entities ==> c.upsert(kind, entities[key]).err.None?
  }

  ghost predicate AllUpserted(c: Client, res: Resources) {
    && Upserted(c, Boundaries, res.boundaries)
    && Upserted(c, Policies, res.policies)
    && (forall key :: key in res.groups ==> c.upsert(Groups, res.groups[key].entity).err.None?)
    && (forall key :: key in res.users ==> c.upsertUser(res.users[key]).None?)
    && forall u :: u in res.serviceUsers ==> c.upsertServiceUser(u).None?
  }

  /** Some declared entity has this local identifier. */
  ghost predicate Declared(res: Resources, kind: Kind, id: LocalId) {
    match kind
    case Boundaries => exists key :: key in res.boundaries && res.boundaries[key].id == id
    case Policies => exists key :: key in res.policies && res.policies[key].id == id
    case Groups => exists key :: key in res.groups && res.groups[key].entity.id == id
  }

  lemma DeclaredIff(res: Resources, kind: Kind, id: LocalId)
    ensures Declared(res, kind, id) <==>
      exists key :: key in EntitiesOf(res, kind) && EntitiesOf(res, kind)[key].id == id
  {
    match kind
    case Boundaries => assert EntitiesOf(res, Boundaries) == res.boundaries;
    case Policies => assert EntitiesOf(res, Policies) == res.policies;
    case Groups =>
      if key :| key in res.groups && res.groups[key].entity.id == id {
        assert EntitiesOf(res, Groups)[key].id == id;
      }
  }

  lemma UpsertedOf(c: Client, res: Resources, kind: Kind)
    requires AllUpserted(c, res)
    ensures Upserted(c, kind, EntitiesOf(res, kind))
  {
  }

  lemma AllUpsertedIff(c: Client, res: Resources)
    ensures AllUpserted(c, res) <==>
      && (forall kind :: Upserted(c, kind, EntitiesOf(res, kind)))
      && (forall key :: key in res.users ==> c.upsertUser(res.users[key]).None?)
      && forall u :: u in res.serviceUsers ==> c.upsertServiceUser(u).None?
  {
    if AllUpserted(c, res) {
      forall kind ensures Upserted(c, kind, EntitiesOf(res, kind)) {
        UpsertedOf(c, res, kind);
      }
    } else if Upserted(c, Groups, EntitiesOf(res, Groups)) {
      forall key | key in res.groups ensures c.upsert(Groups, res.groups[key].entity).err.None? {
        assert EntitiesOf(res, Groups)[key] == res.groups[key].entity;
      }
      assert EntitiesOf(res, Boundaries) == res.boundaries && EntitiesOf(res, Policies) == res.policies;
    }
  }

  /** Every declared identifier reads as what the upsert of an entity with that identifier returned,
      every other one as before. */
  ghost predicate LookupDeployed(c: Client, res: Resources, v: View, v': View, kind: Kind, id: LocalId) {
    && (Declared(res, kind, id) ==>
          exists key :: key in EntitiesOf(res, kind) && EntitiesOf(res, kind)[key].id == id
            && v'.Lookup(kind, id) == c.upsert(kind, EntitiesOf(res, kind)[key]).id)
    && (!Declared(res, kind, id) ==> v'.Lookup(kind, id) == v.Lookup(kind, id))
  }

  ghost predicate GroupBound(c: Client, v: View, g: Group) {
    var gid := v.Lookup(Groups, g.entity.id);
    var refs := EnvironmentTable(v, g.environments);
    && gid != ""
    && BindingsKnown(v, g.policies)
    && c.updateAccountPolicyBindings(gid, BindingTable(v, g.policies)).None?
    && (forall i :: 0 <= i < |g.environments| ==> BindingsKnown(v, g.environments[i].policies))
    && (refs == map[] ==> c.deleteAllEnvironmentPolicyBindings(gid).None?)
    && forall env :: env in refs ==> c.updateEnvironmentPolicyBindings(env, gid, refs[env]).None?
  }

  predicate ZonesKnown(v: View, zones: seq<ZoneAccess>) {
    forall i :: 0 <= i < |zones| ==> ZoneId(v.mzIds, zones[i].environment, zones[i].zone) != ""
  }

  function Scoped(names: seq<string>, scopeType: string, scope: string): seq<Permission> {
    seq(|names|, i requires 0 <= i < |names| => Permission(names[i], scopeType, scope))
  }

  function EnvironmentPermissions(environments: seq<EnvironmentAccess>): seq<Permission> {
    if environments == [] then []
    else
      var e := environments[|environments| - 1];
      EnvironmentPermissions(environments[..|environments| - 1]) + Scoped(e.permissions, "tenant", e.name)
  }

  function ZoneScope(v: View, z: ZoneAccess): string {
    z.environment + ":" + ZoneId(v.mzIds, z.environment, z.zone)
  }

  function ZonePermissions(v: View, zones: seq<ZoneAccess>): seq<Permission> {
    if zones == [] then []
    else
      var z := zones[|zones| - 1];
      ZonePermissions(v, zones[..|zones| - 1]) + Scoped(z.permissions, "management-zone", ZoneScope(v, z))
  }

  /** All permissions of a group: for the account, for its environments and for its management zones. */
  function PermissionsOf(c: Client, v: View, g: Group): seq<Permission> {
    Scoped(g.permissions, "account", c.accountUuid) + EnvironmentPermissions(g.environments) +
      ZonePermissions(v, g.zones)
  }

  lemma {:induction false} EnvironmentPermissionIff(environments: seq<EnvironmentAccess>, p: Permission)
    ensures p in EnvironmentPermissions(environments) <==>
      p.scopeType == "tenant" && exists e :: e in environments && p.scope == e.name && p.name in e.permissions
  {
    if environments != [] {
      var front, last := environments[..|environments| - 1], environments[|environments| - 1];
      EnvironmentPermissionIff(front, p);
      ScopedIff(last.permissions, "tenant", last.name, p);
      assert forall e :: e in environments <==> e in front || e == last;
    }
  }

  lemma {:induction false} ZonePermissionIff(v: View, zones: seq<ZoneAccess>, p: Permission)
    ensures p in ZonePermissions(v, zones) <==>
      && p.scopeType == "management-zone"
      && exists z :: z in zones && p.scope == ZoneScope(v, z) && p.name in z.permissions
  {
    if zones != [] {
      var front, last := zones[..|zones| - 1], zones[|zones| - 1];
      ZonePermissionIff(v, front, p);
      ScopedIff(last.permissions, "management-zone", ZoneScope(v, last), p);
      assert forall z :: z in zones <==> z in front || z == last;
    }
  }

  lemma ScopedIff(names: seq<string>, scopeType: string, scope: string, p: Permission)
    ensures p in Scoped(names, scopeType, scope) <==> p.scopeType == scopeType && p.scope == scope && p.name in names
  {
    if p.scopeType == scopeType && p.scope == scope && p.name in names {
      var i :| 0 <= i < |names| && names[i] == p.name;
      assert Scoped(names, scopeType, scope)[i] == p;
    }
  }

  /** The scope of a zone permission is that of the first zone of its environment and name, and the bare
      environment when there is none. */
  ghost predicate IsScopeOf(zones: seq<Zone>, z: ZoneAccess, scope: string) {
    || (exists i :: FirstZone(zones, z.environment, z.zone, i) && scope == z.environment + ":" + zones[i].id)
    || (NoZone(zones, z.environment, z.zone) && scope == z.environment + ":")
  }

  lemma ScopeOfZone(v: View, z: ZoneAccess, scope: string)
    ensures scope == ZoneScope(v, z) <==> IsScopeOf(v.mzIds, z, scope)
  {
    ZoneIdIsFirst(v.mzIds, z.environment, z.zone);
    assert z.environment + ":" + "" == z.environment + ":";
  }

  /** What a group is permitted: exactly what it lists, each with its own scope. */
  lemma PermissionIff(c: Client, v: View, g: Group, p: Permission)
    ensures p in PermissionsOf(c, v, g) <==>
      || (p.scopeType == "account" && p.scope == c.accountUuid && p.name in g.permissions)
      || (p.scopeType == "tenant" && exists e :: e in g.environments && p.scope == e.name && p.name in e.permissions)
      || (&& p.scopeType == "management-zone"
          && exists z :: z in g.zones && p.name in z.permissions && IsScopeOf(v.mzIds, z, p.scope))
  {
    forall z ensures p.scope == ZoneScope(v, z) <==> IsScopeOf(v.mzIds, z, p.scope) {
      ScopeOfZone(v, z, p.scope);
    }
    ScopedIff(g.permissions, "account", c.accountUuid, p);
    EnvironmentPermissionIff(g.environments, p);
    ZonePermissionIff(v, g.zones, p);
  }

  predicate GroupPermitted(c: Client, v: View, g: Group) {
    var gid := v.Lookup(Groups, g.entity.id);
    ZonesKnown(v, g.zones) && gid != "" && c.updatePermissions(gid, PermissionsOf(c, v, g)).None?
  }

  predicate UserBound(c: Client, v: View, u: User) {
    AllKnown(v, Groups, u.groups) && c.updateGroupBindings(u.name, Lookups(v, Groups, u.groups)).None?
  }

  predicate ServiceUserBound(c: Client, v: View, u: User) {
    var email := c.getServiceUserEmail(u);
    && AllKnown(v, Groups, u.groups)
    && email.Fetched? && c.updateGroupBindings(email.value, Lookups(v, Groups, u.groups)).None?
  }

  ghost predicate AllBound(c: Client, v: View, res: Resources) {
    && (forall key :: key in res.groups ==> GroupBound(c, v, res.groups[key]) && GroupPermitted(c, v, res.groups[key]))
    && (forall key :: key in res.users ==> UserBound(c, v, res.users[key]))
    && forall i :: 0 <= i < |res.serviceUsers| ==> ServiceUserBound(c, v, res.serviceUsers[i])
  }

  // ---------------------------------------------------------------------------
  // What a binding is, in terms of the requests
  // ---------------------------------------------------------------------------

  /** The policy bindings of a group are in place: the policies of the account and those of the last entry for
      each environment are known and accepted, or the deletion is, when there is no entry. */
  lemma GroupBoundIff(c: Client, v: View, g: Group)
    ensures
      var gid := v.Lookup(Groups, g.entity.id);
      GroupBound(c, v, g) <==>
      && gid != ""
      && BindingsKnown(v, g.policies)
      && (forall i :: 0 <= i < |g.environments| ==> BindingsKnown(v, g.environments[i].policies))
      && (forall refs :: AreBindings(v, g.policies, refs) ==> c.updateAccountPolicyBindings(gid, refs).None?)
      && (g.environments == [] ==> c.deleteAllEnvironmentPolicyBindings(gid).None?)
      && EntriesAccepted(c, v, gid, g.environments)
  {
    var gid := v.Lookup(Groups, g.entity.id);
    var refs := EnvironmentTable(v, g.environments);
    AreBindingsIff(v, g.policies, BindingTable(v, g.policies));
    forall r | AreBindings(v, g.policies, r) ensures r == BindingTable(v, g.policies) {
      AreBindingsIff(v, g.policies, r);
    }
    if g.environments != [] {
      EnvironmentTableKeys(v, g.environments, g.environments[0].name);
      assert g.environments[0].name in refs;
    }
    EnvironmentsBoundIff(c, v, gid, g.environments);
  }

  /** The bindings of the last entry for each environment are accepted. */
  ghost predicate EntriesAccepted(c: Client, v: View, gid: RemoteId, environments: seq<EnvironmentAccess>) {
    forall env, i, refs :: LastEntry(environments, env, i) && AreBindings(v, environments[i].policies, refs) ==>
      c.updateEnvironmentPolicyBindings(env, gid, refs).None?
  }

  lemma EnvironmentsBoundIff(c: Client, v: View, gid: RemoteId, environments: seq<EnvironmentAccess>)
    ensures
      var refs := EnvironmentTable(v, environments);
      EntriesAccepted(c, v, gid, environments) <==>
      forall env :: env in refs ==> c.updateEnvironmentPolicyBindings(env, gid, refs[env]).None?
  {
    var refs := EnvironmentTable(v, environments);
    if EntriesAccepted(c, v, gid, environments) {
      forall env | env in refs ensures c.updateEnvironmentPolicyBindings(env, gid, refs[env]).None? {
        EnvironmentTableKeys(v, environments, env);
        var i := LastEntryExists(environments, env);
        LastEnvironmentCounts(v, environments, env, i);
        AreBindingsIff(v, environments[i].policies, refs[env]);
      }
    } else {
      var env, i, r :|
        && LastEntry(environments, env, i) && AreBindings(v, environments[i].policies, r)
        && c.updateEnvironmentPolicyBindings(env, gid, r).Some?;
      LastEnvironmentCounts(v, environments, env, i);
      AreBindingsIff(v, environments[i].policies, r);
      assert env in refs && refs[env] == r;
    }
  }

  lemma {:induction false} LastEntryExists(environments: seq<EnvironmentAccess>, env: string) returns (i: nat)
    requires exists k :: 0 <= k < |environments| && environments[k].name == env
    ensures LastEntry(environments, env, i)
    decreases |environments|
  {
    var n := |environments| - 1;
    if environments[n].name == env {
      i := n;
    } else {
      i := LastEntryExists(environments[..n], env);
    }
  }

  /** There is a zone of that environment and name, and the first one has an identifier. */
  ghost predicate ZoneResolves(zones: seq<Zone>, z: ZoneAccess) {
    exists i :: FirstZone(zones, z.environment, z.zone, i) && zones[i].id != ""
  }

  lemma ZonesKnownIff(v: View, zones: seq<ZoneAccess>)
    ensures ZonesKnown(v, zones) <==> forall k :: 0 <= k < |zones| ==> ZoneResolves(v.mzIds, zones[k])
  {
    forall k | 0 <= k < |zones|
      ensures ZoneId(v.mzIds, zones[k].environment, zones[k].zone) != "" <==> ZoneResolves(v.mzIds, zones[k])
    {
      ZoneIdIsFirst(v.mzIds, zones[k].environment, zones[k].zone);
    }
  }

  /** A user is bound when the groups are known and the update with their identifiers, in order, is accepted. */
  lemma UserBoundIff(c: Client, v: View, u: User, ids: seq<RemoteId>)
    requires IsLookedUp(v, Groups, u.groups, ids)
    ensures UserBound(c, v, u) <==> "" !in ids && c.updateGroupBindings(u.name, ids).None?
    ensures ServiceUserBound(c, v, u) <==>
      && "" !in ids && c.getServiceUserEmail(u).Fetched?
      && c.updateGroupBindings(c.getServiceUserEmail(u).value, ids).None?
  {
    assert ids == Lookups(v, Groups, u.groups);
  }

  // ---------------------------------------------------------------------------
  // The deployer
  // ---------------------------------------------------------------------------

  class AccountDeployer {
    const client: Client
    const idMap: IdMap
    const maxConcurrentDeploys: int

    /** The state that the goroutines of a dispatcher happen to reach for some jobs when Wait returns. */
    const schedule: Pool<Stored> -> State<Stored>

    ghost predicate Valid() {
      forall p :: WaitReturned(p, schedule(p))
    }

    constructor (client: Client, maxConcurrentDeploys: int, schedule: Pool<Stored> -> State<Stored>)
      requires forall p :: WaitReturned(p, schedule(p))
      ensures Valid() && fresh(idMap) && idMap.Contents() == View(map[], map[], map[], [])
      ensures this.client == client && this.maxConcurrentDeploys == maxConcurrentDeploys && this.schedule == schedule
    {
      this.client, this.maxConcurrentDeploys, this.schedule := client, maxConcurrentDeploys, schedule;
      idMap := new IdMap();
    }

    /** Hands the jobs to a dispatcher and waits: one dispatcher for each phase. */
    method RunPhase(jobs: seq<Job<Stored>>) returns (errs: seq<string>)
      requires Valid()
      modifies idMap
      ensures errs == [] <==> Silent(jobs)
      ensures forall kind, id :: LookupAfter(old(idMap.Contents()), jobs, idMap.Contents(), kind, id)
      ensures forall z :: z in idMap.mzIds <==> z in old(idMap.mzIds) || JobsZone(jobs, z)
      ensures NoWrites(jobs) ==> idMap.Contents() == old(idMap.Contents())
    {
      var pool := Pool(jobs, maxConcurrentDeploys);
      var end := schedule(pool);
      assert WaitReturned(pool, end);
      ghost var before := idMap.Contents();
      idMap.Store(end.results);
      errs := end.errs;
      PhaseErrors(pool, end);
      forall kind, id ensures LookupAfter(before, jobs, idMap.Contents(), kind, id) {
        PhaseResult(pool, end, before, kind, id);
      }
      forall z ensures z in idMap.mzIds <==> z in before.mzIds || JobsZone(jobs, z) {
        PhaseZones(pool, end, before, z);
      }
      if NoWrites(jobs) {
        PhaseWithoutWrites(pool, end);
      }
    }

    method FetchExistingResources() returns (errs: seq<string>)
      requires Valid()
      modifies idMap
      ensures errs == [] <==> AllFetched(client)
      ensures errs == [] ==> forall kind, id :: LookupFetched(client, old(idMap.Contents()), idMap.Contents(), kind, id)
      ensures errs == [] ==> forall z :: z in idMap.mzIds <==>
        z in old(idMap.mzIds) || z in client.getManagementZones.value
    {
      var jobs := FetchJobs(client);
      errs := RunPhase(jobs);
      FetchJobsActions(client);
      if AllFetched(client) {
        forall kind, id ensures LookupFetched(client, old(idMap.Contents()), idMap.Contents(), kind, id) {
          FetchedLookup(client, old(idMap.Contents()), idMap.Contents(), kind, id);
        }
      }
    }

    method DeployBoundaries(res: Resources) returns (jobs: seq<Job<Stored>>)
      ensures forall a :: Occurs(jobs, a) <==> UpsertAction(client, res, Boundaries, a)
    {
      jobs := AddJobs(res.boundaries, (e: Entity) => DeployJob(Boundaries, e.id, client.upsert(Boundaries, e)));
      assert EntitiesOf(res, Boundaries) == res.boundaries;
    }

    method DeployPolicies(res: Resources) returns (jobs: seq<Job<Stored>>)
      ensures forall a :: Occurs(jobs, a) <==> UpsertAction(client, res, Policies, a)
    {
      jobs := AddJobs(res.policies, (e: Entity) => DeployJob(Policies, e.id, client.upsert(Policies, e)));
      assert EntitiesOf(res, Policies) == res.policies;
    }

    method DeployGroups(res: Resources) returns (jobs: seq<Job<Stored>>)
      ensures forall a :: Occurs(jobs, a) <==> UpsertAction(client, res, Groups, a)
    {
      jobs := AddJobs(res.groups, (g: Group) => DeployJob(Groups, g.entity.id, client.upsert(Groups, g.entity)));
      forall a ensures UpsertAction(client, res, Groups, a) <==>
        exists key :: key in res.groups
          && a in DeployJob(Groups, res.groups[key].entity.id, client.upsert(Groups, res.groups[key].entity))
      {
        assert forall key :: key in res.groups ==> EntitiesOf(res, Groups)[key] == res.groups[key].entity;
      }
    }

    method DeployUsers(res: Resources) returns (jobs: seq<Job<Stored>>)
      ensures forall a :: Occurs(jobs, a) <==> UserAction(client, res, a)
    {
      jobs := AddJobs(res.users, (u: User) => ErrorJob(client.upsertUser(u)));
    }

    method DeployServiceUsers(res: Resources) returns (jobs: seq<Job<Stored>>)
      ensures forall a :: Occurs(jobs, a) <==> ServiceUserAction(client, res, a)
    {
      jobs := AddJobsInOrder(res.serviceUsers, (u: User) => ErrorJob(client.upsertServiceUser(u)));
    }

    method DeployResources(res: Resources) returns (errs: seq<string>)
      requires Valid()
      modifies idMap
      ensures errs == [] <==> AllUpserted(client, res)
      ensures forall kind, id :: LookupDeployed(client, res, old(idMap.Contents()), idMap.Contents(), kind, id)
      ensures forall z :: z in idMap.mzIds <==> z in old(idMap.mzIds)
    {
      var boundaries := DeployBoundaries(res);
      var policies := DeployPolicies(res);
      var groups := DeployGroups(res);
      var users := DeployUsers(res);
      var serviceUsers := DeployServiceUsers(res);
      var jobs := boundaries + policies + groups + users + serviceUsers;
      DeployJobsAppend(boundaries, policies, groups, users, serviceUsers);
      assert DeployJobsOf(client, res, jobs);
      ghost var before := idMap.Contents();
      errs := RunPhase(jobs);
      DeployJobsSilent(client, res, jobs);
      NoZonesDeployed(client, res, jobs);
      ghost var after := idMap.Contents();
      forall kind, id ensures LookupDeployed(client, res, before, after, kind, id) {
        assert LookupAfter(before, jobs, after, kind, id);
        DeployedLookup(client, res, jobs, before, after, kind, id);
      }
    }

    /** Policy bindings of one group: account level first, then every environment in any order. */
    method UpdateGroupPolicyBindings(g: Group) returns (err: Option<string>)
      ensures err.None? <==> GroupBound(client, idMap.Contents(), g)
    {
      var gid := idMap.GetUUID(Groups, g.entity.id);
      if gid == "" {
        return Some("unable to determine UUID for group " + g.entity.name);
      }
      var accRefs := ProcessPolicyBindings(idMap, g.policies);
      if accRefs.NotFound? {
        return Some("failed to fetch policies for group " + g.entity.name);
      }
      err := client.updateAccountPolicyBindings(gid, accRefs.value);
      if err.Some? {
        return;
      }
      var envRefs := GetEnvPolicyRefs(idMap, g.environments);
      if envRefs.NotFound? {
        return Some("could not find remote ids for group " + g.entity.name);
      }
      if envRefs.value == map[] {
        return client.deleteAllEnvironmentPolicyBindings(gid);
      }
      var rest := envRefs.value.Keys;
      while rest != {}
        invariant rest <= envRefs.value.Keys
        invariant forall env :: env in envRefs.value && env !in rest ==>
          client.updateEnvironmentPolicyBindings(env, gid, envRefs.value[env]).None?
      {
        var env :| env in rest;
        err := client.updateEnvironmentPolicyBindings(env, gid, envRefs.value[env]);
        if err.Some? {
          return;
        }
        rest := rest - {env};
      }
      err := None;
    }

    method GetScopedPermissions(names: seq<string>, scopeType: string, scope: string) returns (perms: seq<Permission>)
      ensures perms == Scoped(names, scopeType, scope)
    {
      perms := [];
      for i := 0 to |names|
        invariant perms == Scoped(names[..i], scopeType, scope)
      {
        perms := perms + [Permission(names[i], scopeType, scope)];
      }
      assert names[..|names|] == names;
    }

    method GetEnvironmentPermissions(environments: seq<EnvironmentAccess>) returns (perms: seq<Permission>)
      ensures perms == EnvironmentPermissions(environments)
    {
      perms := [];
      for i := 0 to |environments|
        invariant perms == EnvironmentPermissions(environments[..i])
      {
        assert environments[..i + 1][..i] == environments[..i];
        var own := GetScopedPermissions(environments[i].permissions, "tenant", environments[i].name);
        perms := perms + own;
      }
      assert environments[..|environments|] == environments;
    }

    method GetManagementZonePermissions(zones: seq<ZoneAccess>) returns (r: Option<seq<Permission>>)
      ensures r.Some? <==> ZonesKnown(idMap.Contents(), zones)
      ensures r.Some? ==> r.value == ZonePermissions(idMap.Contents(), zones)
    {
      var perms: seq<Permission> := [];
      for i := 0 to |zones|
        invariant ZonesKnown(idMap.Contents(), zones[..i])
        invariant perms == ZonePermissions(idMap.Contents(), zones[..i])
      {
        assert zones[..i + 1][..i] == zones[..i];
        var mzId := idMap.GetMZoneUUID(zones[i].environment, zones[i].zone);
        if mzId == "" {
          return None;
        }
        var own := GetScopedPermissions(zones[i].permissions, "management-zone", zones[i].environment + ":" + mzId);
        perms := perms + own;
      }
      assert zones[..|zones|] == zones;
      r := Some(perms);
    }

    method UpdateGroupPermissions(g: Group) returns (err: Option<string>)
      ensures err.None? <==> GroupPermitted(client, idMap.Contents(), g)
    {
      var accountPerms := GetScopedPermissions(g.permissions, "account", client.accountUuid);
      var environmentPerms := GetEnvironmentPermissions(g.environments);
      var zonePerms := GetManagementZonePermissions(g.zones);
      if zonePerms.None? {
        return Some("unable to lookup id for a management zone");
      }
      var gid := idMap.GetUUID(Groups, g.entity.id);
      if gid == "" {
        return Some("no group UUID found for group " + g.entity.id);
      }
      err := client.updatePermissions(gid, accountPerms + environmentPerms + zonePerms.value);
    }

    method UpdateUserGroupBindings(u: User) returns (err: Option<string>)
      ensures err.None? <==> UserBound(client, idMap.Contents(), u)
    {
      var refs := ProcessItems(idMap, u.groups, Groups);
      if refs.NotFound? {
        return Some("could not find remote ids for the groups of " + u.name);
      }
      err := client.updateGroupBindings(u.name, refs.value);
    }

    method UpdateServiceUserGroupBindings(u: User) returns (err: Option<string>)
      ensures err.None? <==> ServiceUserBound(client, idMap.Contents(), u)
    {
      var refs := ProcessItems(idMap, u.groups, Groups);
      if refs.NotFound? {
        return Some("could not find remote ids for the groups of " + u.name);
      }
      var email := client.getServiceUserEmail(u);
      if email.Failed? {
        return Some(email.err);
      }
      err := client.updateGroupBindings(email.value, refs.value);
    }

    /** One job for each group, which sends an error for its bindings and one for its permissions, each exactly
        when that part fails; a failure of the first does not keep the second from happening. */
    method DeployGroupBindings(groups: map<string, Group>) returns (jobs: seq<Job<Stored>>)
      ensures NoWrites(jobs)
      ensures exists keys :: AreGroupJobs(client, idMap.Contents(), groups, keys, groups.Keys, jobs)
      ensures Silent(jobs) <==> forall key :: key in groups ==>
        GroupBound(client, idMap.Contents(), groups[key]) && GroupPermitted(client, idMap.Contents(), groups[key])
    {
      jobs := [];
      ghost var keys: seq<string> := [];
      ghost var v := idMap.Contents();
      var rest := groups.Keys;
      while rest != {}
        invariant rest <= groups.Keys
        invariant AreGroupJobs(client, v, groups, keys, groups.Keys - rest, jobs)
      {
        var key :| key in rest;
        var bindings := UpdateGroupPolicyBindings(groups[key]);
        var permissions := UpdateGroupPermissions(groups[key]);
        AddGroupJob(client, v, groups, keys, groups.Keys - rest, jobs, key, bindings, permissions);
        jobs, keys := jobs + [ErrorJob(bindings) + ErrorJob(permissions)], keys + [key];
        assert groups.Keys - (rest - {key}) == groups.Keys - rest + {key};
        rest := rest - {key};
      }
      assert groups.Keys - rest == groups.Keys;
      assert AreGroupJobs(client, idMap.Contents(), groups, keys, groups.Keys, jobs);
      GroupJobsSilent(client, v, groups, keys, jobs);
    }

    method DeployUserBindings(users: map<string, User>) returns (jobs: seq<Job<Stored>>)
      ensures NoWrites(jobs)
      ensures Silent(jobs) <==> forall key :: key in users ==> UserBound(client, idMap.Contents(), users[key])
    {
      jobs := [];
      var rest := users.Keys;
      while rest != {}
        invariant rest <= users.Keys && NoWrites(jobs)
        invariant Silent(jobs) <==>
          forall key :: key in users.Keys - rest ==> UserBound(client, idMap.Contents(), users[key])
      {
        var key :| key in rest;
        var err := UpdateUserGroupBindings(users[key]);
        AddErrorJob(jobs, err, None);
        jobs := jobs + [ErrorJob(err) + ErrorJob(None)];
        rest := rest - {key};
      }
    }

    method DeployServiceUserBindings(users: seq<User>) returns (jobs: seq<Job<Stored>>)
      ensures NoWrites(jobs)
      ensures Silent(jobs) <==> forall i :: 0 <= i < |users| ==> ServiceUserBound(client, idMap.Contents(), users[i])
    {
      jobs := [];
      for i := 0 to |users|
        invariant NoWrites(jobs)
        invariant Silent(jobs) <==> forall k :: 0 <= k < i ==> ServiceUserBound(client, idMap.Contents(), users[k])
      {
        var err := UpdateServiceUserGroupBindings(users[i]);
        AddErrorJob(jobs, err, None);
        jobs := jobs + [ErrorJob(err) + ErrorJob(None)];
      }
    }

    /** The binding jobs only read the table, so their lookups are those of the table at the start of the phase. */
    method UpdateBindings(res: Resources) returns (errs: seq<string>)
      requires Valid()
      modifies idMap
      ensures idMap.Contents() == old(idMap.Contents())
      ensures errs == [] <==> AllBound(client, idMap.Contents(), res)
    {
      var groups := DeployGroupBindings(res.groups);
      var users := DeployUserBindings(res.users);
      var serviceUsers := DeployServiceUserBindings(res.serviceUsers);
      BindingJobsAppend(groups, users, serviceUsers);
      errs := RunPhase(groups + users + serviceUsers);
    }

    /** The phase barrier. Bindings start iff every fetch and every upsert succeeded; then every declared
        identifier reads as one that an upsert returned. The whole deployment succeeds iff the bindings do too,
        and they do when every reference is declared or fetched and the remote side accepts every binding. */
    method Deploy(res: Resources) returns (errs: seq<string>, ghost bindingsStarted: bool)
      requires Valid()
      modifies idMap
      ensures bindingsStarted <==> AllFetched(client) && AllUpserted(client, res)
      ensures bindingsStarted && Honest(client) ==>
        forall kind, id :: Declared(res, kind, id) ==> idMap.Contents().Lookup(kind, id) != ""
      ensures errs == [] <==> bindingsStarted && AllBound(client, idMap.Contents(), res)
      ensures bindingsStarted && Honest(client) && Accepting(client) && Covered(client, res) ==>
        old(idMap.mzIds) == [] ==> errs == []
    {
      ghost var v0 := idMap.Contents();
      bindingsStarted := false;
      errs := FetchExistingResources();
      if errs != [] {
        return;
      }
      ghost var v1 := idMap.Contents();
      errs := DeployResources(res);
      if errs != [] {
        return;
      }
      ghost var v2 := idMap.Contents();
      bindingsStarted := true;
      if Honest(client) {
        forall kind, id | Declared(res, kind, id) ensures v2.Lookup(kind, id) != "" {
          assert LookupDeployed(client, res, v1, v2, kind, id);
        }
        if Accepting(client) && Covered(client, res) && v0.mzIds == [] {
          BothPhasesThrough(client, res, v0, v1, v2);
          CoveredBinds(client, res, v2);
        }
      }
      errs := UpdateBindings(res);
    }
  }

  function FetchJobs(c: Client): seq<Job<Stored>> {
    [ FetchJob(c.getIds(Boundaries), ids => Ids(Boundaries, ids)),
      FetchJob(c.getIds(Policies), ids => Ids(Policies, ids)),
      FetchJob(c.getManagementZones, zones => Zones(zones)),
      FetchJob(c.getIds(Groups), ids => Ids(Groups, ids)) ]
  }

  ghost predicate LookupFetched(c: Client, v: View, v': View, kind: Kind, id: LocalId)
    requires AllFetched(c)
  {
    var ids := c.getIds(kind).value;
    v'.Lookup(kind, id) == if id in ids then ids[id] else v.Lookup(kind, id)
  }

  lemma AllFetchedIff(c: Client)
    ensures AllFetched(c) <==>
      && c.getIds(Boundaries).Fetched? && c.getIds(Policies).Fetched? && c.getIds(Groups).Fetched?
      && c.getManagementZones.Fetched?
  {
    if c.getIds(Boundaries).Fetched? && c.getIds(Policies).Fetched? && c.getIds(Groups).Fetched? {
      forall kind ensures c.getIds(kind).Fetched? {
        match kind
        case Boundaries =>
        case Policies =>
        case Groups =>
      }
    }
  }

  lemma FetchJobsActions(c: Client)
    ensures Silent(FetchJobs(c)) <==> AllFetched(c)
    ensures AllFetched(c) ==> forall x :: Occurs(FetchJobs(c), Write(x)) <==>
      || x == Ids(Boundaries, c.getIds(Boundaries).value) || x == Ids(Policies, c.getIds(Policies).value)
      || x == Ids(Groups, c.getIds(Groups).value) || x == Zones(c.getManagementZones.value)
    ensures AllFetched(c) ==> forall z :: JobsZone(FetchJobs(c), z) <==> z in c.getManagementZones.value
  {
    var jobs := FetchJobs(c);
    AllFetchedIff(c);
    assert forall a :: Occurs(jobs, a) <==> a in jobs[0] || a in jobs[1] || a in jobs[2] || a in jobs[3];
  }

  lemma FetchedLookup(c: Client, v: View, v': View, kind: Kind, id: LocalId)
    requires AllFetched(c) && LookupAfter(v, FetchJobs(c), v', kind, id)
    ensures LookupFetched(c, v, v', kind, id)
  {
    FetchJobsActions(c);
    var ids := c.getIds(kind).value;
    if id in ids {
      assert Occurs(FetchJobs(c), Write(Ids(kind, ids)));
      assert JobsWrite(FetchJobs(c), kind, id, ids[id]);
    }
  }

  // ---------------------------------------------------------------------------
  // Second phase
  // ---------------------------------------------------------------------------

  ghost predicate UpsertAction(c: Client, res: Resources, kind: Kind, a: Action<Stored>) {
    exists key :: key in EntitiesOf(res, kind)
      && a in DeployJob(kind, EntitiesOf(res, kind)[key].id, c.upsert(kind, EntitiesOf(res, kind)[key]))
  }

  ghost predicate UserAction(c: Client, res: Resources, a: Action<Stored>) {
    exists key :: key in res.users && a in ErrorJob(c.upsertUser(res.users[key]))
  }

  ghost predicate ServiceUserAction(c: Client, res: Resources, a: Action<Stored>) {
    exists i :: 0 <= i < |res.serviceUsers| && a in ErrorJob(c.upsertServiceUser(res.serviceUsers[i]))
  }

  /** The jobs of the second phase, in whatever order the maps were iterated. */
  ghost predicate DeployJobsOf(c: Client, res: Resources, jobs: seq<Job<Stored>>) {
    forall a :: Occurs(jobs, a) <==>
      || UpsertAction(c, res, Boundaries, a) || UpsertAction(c, res, Policies, a) || UpsertAction(c, res, Groups, a)
      || UserAction(c, res, a) || ServiceUserAction(c, res, a)
  }

  lemma DeployJobsAppend(a: seq<Job<Stored>>, b: seq<Job<Stored>>, c: seq<Job<Stored>>, d: seq<Job<Stored>>,
                         e: seq<Job<Stored>>)
    ensures forall x :: Occurs(a + b + c + d + e, x) <==>
      Occurs(a, x) || Occurs(b, x) || Occurs(c, x) || Occurs(d, x) || Occurs(e, x)
  {
    forall x
      ensures Occurs(a + b + c + d + e, x) <==>
        Occurs(a, x) || Occurs(b, x) || Occurs(c, x) || Occurs(d, x) || Occurs(e, x)
    {
      OccursAppend(a, b, x);
      OccursAppend(a + b, c, x);
      OccursAppend(a + b + c, d, x);
      OccursAppend(a + b + c + d, e, x);
    }
  }

  lemma DeployJobsSilent(c: Client, res: Resources, jobs: seq<Job<Stored>>)
    requires DeployJobsOf(c, res, jobs)
    ensures Silent(jobs) <==> AllUpserted(c, res)
  {
    AllUpsertedIff(c, res);
    if kind :| !Upserted(c, kind, EntitiesOf(res, kind)) {
      UpsertFails(c, res, jobs, kind);
    } else if key :| key in res.users && c.upsertUser(res.users[key]).Some? {
      assert ErrorJob(c.upsertUser(res.users[key]))[0] == Send(c.upsertUser(res.users[key]));
      assert UserAction(c, res, Send(c.upsertUser(res.users[key])));
    } else if i :| 0 <= i < |res.serviceUsers| && c.upsertServiceUser(res.serviceUsers[i]).Some? {
      var err := c.upsertServiceUser(res.serviceUsers[i]);
      assert ErrorJob(err)[0] == Send(err);
      assert ServiceUserAction(c, res, Send(err));
    }
  }

  lemma UpsertFails(c: Client, res: Resources, jobs: seq<Job<Stored>>, kind: Kind)
    requires DeployJobsOf(c, res, jobs) && !Upserted(c, kind, EntitiesOf(res, kind))
    ensures !Silent(jobs)
  {
    var key :| key in EntitiesOf(res, kind) && c.upsert(kind, EntitiesOf(res, kind)[key]).err.Some?;
    var reply := c.upsert(kind, EntitiesOf(res, kind)[key]);
    assert DeployJob(kind, EntitiesOf(res, kind)[key].id, reply)[0] == Send(reply.err);
    assert UpsertAction(c, res, kind, Send(reply.err));
  }

  lemma DeclaredIsWritten(c: Client, res: Resources, jobs: seq<Job<Stored>>, kind: Kind, key: string)
    requires DeployJobsOf(c, res, jobs) && key in EntitiesOf(res, kind)
    ensures JobsWrite(jobs, kind, EntitiesOf(res, kind)[key].id, c.upsert(kind, EntitiesOf(res, kind)[key]).id)
  {
    var e := EntitiesOf(res, kind)[key];
    var job := DeployJob(kind, e.id, c.upsert(kind, e));
    assert job[|job| - 1] == Write(Ids(kind, map[e.id := c.upsert(kind, e).id]));
    assert UpsertAction(c, res, kind, job[|job| - 1]);
  }

  /** What an upsert job writes is the identifier of its entity. */
  lemma UpsertWrites(c: Client, res: Resources, k: Kind, x: Stored)
    requires UpsertAction(c, res, k, Write(x))
    ensures exists key :: key in EntitiesOf(res, k)
              && x == Ids(k, map[EntitiesOf(res, k)[key].id := c.upsert(k, EntitiesOf(res, k)[key]).id])
  {
  }

  lemma UsersWriteNothing(c: Client, res: Resources, x: Stored)
    ensures !UserAction(c, res, Write(x)) && !ServiceUserAction(c, res, Write(x))
  {
  }

  lemma OnlyDeclaredIsWritten(c: Client, res: Resources, jobs: seq<Job<Stored>>, kind: Kind, id: LocalId, r: RemoteId)
    requires DeployJobsOf(c, res, jobs) && JobsWrite(jobs, kind, id, r)
    ensures exists key :: key in EntitiesOf(res, kind) && EntitiesOf(res, kind)[key].id == id
              && r == c.upsert(kind, EntitiesOf(res, kind)[key]).id
  {
    var x :| Occurs(jobs, Write(x)) && Writes(x, kind, id) && x.ids[id] == r;
    UsersWriteNothing(c, res, x);
    var k :| UpsertAction(c, res, k, Write(x));
    UpsertWrites(c, res, k, x);
  }

  lemma DeployedLookup(c: Client, res: Resources, jobs: seq<Job<Stored>>, v: View, v': View, kind: Kind, id: LocalId)
    requires DeployJobsOf(c, res, jobs) && LookupAfter(v, jobs, v', kind, id)
    ensures LookupDeployed(c, res, v, v', kind, id)
  {
    DeclaredIff(res, kind, id);
    if Declared(res, kind, id) {
      var key :| key in EntitiesOf(res, kind) && EntitiesOf(res, kind)[key].id == id;
      DeclaredIsWritten(c, res, jobs, kind, key);
    }
    if JobsWrite(jobs, kind, id, v'.Lookup(kind, id)) {
      OnlyDeclaredIsWritten(c, res, jobs, kind, id, v'.Lookup(kind, id));
    }
  }

  lemma NoZonesDeployed(c: Client, res: Resources, jobs: seq<Job<Stored>>)
    requires DeployJobsOf(c, res, jobs)
    ensures forall z :: !JobsZone(jobs, z)
  {
  }

  // ---------------------------------------------------------------------------
  // Third phase
  // ---------------------------------------------------------------------------

  /** The job of a group sends exactly the errors of its bindings and of its permissions, in that order. */
  ghost predicate IsGroupJob(c: Client, v: View, g: Group, job: Job<Stored>) {
    exists b: Option<string>, p: Option<string> :: GroupJobWith(c, v, g, job, b, p)
  }

  ghost predicate GroupJobWith(c: Client, v: View, g: Group, job: Job<Stored>, b: Option<string>, p: Option<string>) {
    job == ErrorJob(b) + ErrorJob(p) && (b.None? <==> GroupBound(c, v, g)) && (p.None? <==> GroupPermitted(c, v, g))
  }

  ghost predicate AreGroupJobs(c: Client, v: View, groups: map<string, Group>, keys: seq<string>, done: set<string>,
                               jobs: seq<Job<Stored>>) {
    && Lists(keys, done) && done <= groups.Keys && |jobs| == |keys|
    && forall j :: 0 <= j < |jobs| ==> keys[j] in groups && IsGroupJob(c, v, groups[keys[j]], jobs[j])
  }

  lemma AddGroupJob(c: Client, v: View, groups: map<string, Group>, keys: seq<string>, done: set<string>,
                    jobs: seq<Job<Stored>>, key: string, b: Option<string>, p: Option<string>)
    requires AreGroupJobs(c, v, groups, keys, done, jobs) && key in groups && key !in done
    requires b.None? <==> GroupBound(c, v, groups[key])
    requires p.None? <==> GroupPermitted(c, v, groups[key])
    ensures AreGroupJobs(c, v, groups, keys + [key], done + {key}, jobs + [ErrorJob(b) + ErrorJob(p)])
  {
    ListsAppend(keys, done, [key], {key});
    assert GroupJobWith(c, v, groups[key], ErrorJob(b) + ErrorJob(p), b, p);
    var more, longer := keys + [key], jobs + [ErrorJob(b) + ErrorJob(p)];
    forall j | 0 <= j < |longer| ensures more[j] in groups && IsGroupJob(c, v, groups[more[j]], longer[j]) {
      if j < |jobs| {
        assert more[j] == keys[j] && longer[j] == jobs[j];
      }
    }
  }

  lemma GroupJobActions(c: Client, v: View, g: Group, job: Job<Stored>)
    requires IsGroupJob(c, v, g, job)
    ensures (forall e :: Send(Some(e)) !in job) <==> GroupBound(c, v, g) && GroupPermitted(c, v, g)
    ensures forall x :: Write(x) !in job
  {
    var b: Option<string>, p: Option<string> :| GroupJobWith(c, v, g, job, b, p);
    forall a ensures a in job <==> (a == Send(b) && b.Some?) || (a == Send(p) && p.Some?) {
      ErrorJobActions(b, p, a);
    }
    assert b.Some? ==> Send(Some(b.value)) in job;
    assert p.Some? ==> Send(Some(p.value)) in job;
  }

  lemma GroupJobsSilent(c: Client, v: View, groups: map<string, Group>, keys: seq<string>, jobs: seq<Job<Stored>>)
    requires AreGroupJobs(c, v, groups, keys, groups.Keys, jobs)
    ensures NoWrites(jobs)
    ensures Silent(jobs) <==>
      forall key :: key in groups ==> GroupBound(c, v, groups[key]) && GroupPermitted(c, v, groups[key])
  {
    forall j | 0 <= j < |jobs|
      ensures (forall e :: Send(Some(e)) !in jobs[j]) <==>
        GroupBound(c, v, groups[keys[j]]) && GroupPermitted(c, v, groups[keys[j]])
      ensures forall x :: Write(x) !in jobs[j]
    {
      GroupJobActions(c, v, groups[keys[j]], jobs[j]);
    }
    if Silent(jobs) {
      forall key | key in groups ensures GroupBound(c, v, groups[key]) && GroupPermitted(c, v, groups[key]) {
        assert key in keys;
        var j :| 0 <= j < |keys| && keys[j] == key;
        assert forall e :: !Occurs(jobs, Send(Some(e)));
      }
    }
  }

  lemma AddErrorJob(jobs: seq<Job<Stored>>, e: Option<string>, f: Option<string>)
    ensures Silent(jobs + [ErrorJob(e) + ErrorJob(f)]) <==> Silent(jobs) && e.None? && f.None?
    ensures NoWrites(jobs + [ErrorJob(e) + ErrorJob(f)]) <==> NoWrites(jobs)
  {
    var job := ErrorJob(e) + ErrorJob(f);
    forall a
      ensures Occurs(jobs + [job], a) <==> Occurs(jobs, a) || (a == Send(e) && e.Some?) || (a == Send(f) && f.Some?)
    {
      OccursLast(jobs, job, a);
      ErrorJobActions(e, f, a);
    }
  }

  lemma ErrorJobActions(e: Option<string>, f: Option<string>, a: Action<Stored>)
    ensures a in ErrorJob(e) + ErrorJob(f) <==> (a == Send(e) && e.Some?) || (a == Send(f) && f.Some?)
  {
  }

  lemma BindingJobsAppend(a: seq<Job<Stored>>, b: seq<Job<Stored>>, c: seq<Job<Stored>>)
    ensures Silent(a + b + c) <==> Silent(a) && Silent(b) && Silent(c)
    ensures NoWrites(a + b + c) <==> NoWrites(a) && NoWrites(b) && NoWrites(c)
  {
    forall x ensures Occurs(a + b + c, x) <==> Occurs(a, x) || Occurs(b, x) || Occurs(c, x) {
      OccursAppend(a, b, x);
      OccursAppend(a + b, c, x);
    }
  }

  /** The remote side accepts every binding and knows every service user. */
  ghost predicate Accepting(c: Client) {
    && (forall g, refs :: c.updateAccountPolicyBindings(g, refs).None?)
    && (forall e, g, refs :: c.updateEnvironmentPolicyBindings(e, g, refs).None?)
    && (forall g :: c.deleteAllEnvironmentPolicyBindings(g).None?)
    && (forall g, perms :: c.updatePermissions(g, perms).None?)
    && (forall n, ids :: c.updateGroupBindings(n, ids).None?)
    && forall u :: c.getServiceUserEmail(u).Fetched?
  }

  /** The reference names a declared entity or one that exists already. */
  ghost predicate RefCovered(c: Client, res: Resources, kind: Kind, id: LocalId) {
    Declared(res, kind, id) || (AllFetched(c) && id in c.getIds(kind).value && c.getIds(kind).value[id] != "")
  }

  ghost predicate RefsCovered(c: Client, res: Resources, kind: Kind, ids: seq<LocalId>) {
    forall i :: 0 <= i < |ids| ==> RefCovered(c, res, kind, ids[i])
  }

  ghost predicate BindingsCovered(c: Client, res: Resources, items: seq<Binding>) {
    forall i :: 0 <= i < |items| ==>
      RefCovered(c, res, Policies, items[i].policy) && RefsCovered(c, res, Boundaries, items[i].boundaries)
  }

  ghost predicate ZoneExists(c: Client, environment: string, zone: string) {
    && c.getManagementZones.Fetched?
    && exists z :: z in c.getManagementZones.value && z.parent == environment && z.name == zone
  }

  ghost predicate GroupCovered(c: Client, res: Resources, g: Group) {
    && BindingsCovered(c, res, g.policies)
    && (forall i :: 0 <= i < |g.environments| ==> BindingsCovered(c, res, g.environments[i].policies))
    && forall i :: 0 <= i < |g.zones| ==> ZoneExists(c, g.zones[i].environment, g.zones[i].zone)
  }

  ghost predicate Covered(c: Client, res: Resources) {
    && (forall key :: key in res.groups ==> GroupCovered(c, res, res.groups[key]))
    && (forall key :: key in res.users ==> RefsCovered(c, res, Groups, res.users[key].groups))
    && (forall i :: 0 <= i < |res.serviceUsers| ==> RefsCovered(c, res, Groups, res.serviceUsers[i].groups))
    && (c.getManagementZones.Fetched? ==> forall z :: z in c.getManagementZones.value ==> z.id != "")
  }

  /** Every covered reference resolves once both phases are through. */
  ghost predicate Through(c: Client, res: Resources, v: View) {
    && (forall kind, id :: RefCovered(c, res, kind, id) ==> v.Lookup(kind, id) != "")
    && forall environment, zone :: ZoneExists(c, environment, zone) ==> ZoneId(v.mzIds, environment, zone) != ""
  }

  lemma CoveredResolves(c: Client, res: Resources, v0: View, v1: View, v2: View, kind: Kind, id: LocalId)
    requires Honest(c) && AllFetched(c) && AllUpserted(c, res)
    requires LookupFetched(c, v0, v1, kind, id) && LookupDeployed(c, res, v1, v2, kind, id)
    requires RefCovered(c, res, kind, id)
    ensures v2.Lookup(kind, id) != ""
  {
    DeclaredIff(res, kind, id);
  }

  lemma CoveredGroupBinds(c: Client, res: Resources, v: View, g: Group)
    requires Through(c, res, v) && Accepting(c) && GroupCovered(c, res, g) && RefCovered(c, res, Groups, g.entity.id)
    ensures GroupBound(c, v, g) && GroupPermitted(c, v, g)
  {
    forall i | 0 <= i < |g.environments| ensures BindingsKnown(v, g.environments[i].policies) {
      assert BindingsCovered(c, res, g.environments[i].policies);
    }
    forall i | 0 <= i < |g.zones| ensures ZoneId(v.mzIds, g.zones[i].environment, g.zones[i].zone) != "" {
      assert ZoneExists(c, g.zones[i].environment, g.zones[i].zone);
    }
  }

  lemma BothPhasesThrough(c: Client, res: Resources, v0: View, v1: View, v2: View)
    requires Honest(c) && AllFetched(c) && AllUpserted(c, res) && v0.mzIds == []
    requires forall z :: z in c.getManagementZones.value ==> z.id != ""
    requires forall kind, id :: LookupFetched(c, v0, v1, kind, id)
    requires forall kind, id :: LookupDeployed(c, res, v1, v2, kind, id)
    requires forall z :: z in v1.mzIds <==> z in v0.mzIds || z in c.getManagementZones.value
    requires forall z :: z in v2.mzIds <==> z in v1.mzIds
    ensures Through(c, res, v2)
  {
    forall kind, id | RefCovered(c, res, kind, id) ensures v2.Lookup(kind, id) != "" {
      CoveredResolves(c, res, v0, v1, v2, kind, id);
    }
    forall environment, zone | ZoneExists(c, environment, zone) ensures ZoneId(v2.mzIds, environment, zone) != "" {
      ZoneFound(v2.mzIds, environment, zone);
    }
  }

  lemma CoveredBinds(c: Client, res: Resources, v: View)
    requires Through(c, res, v) && Accepting(c) && Covered(c, res)
    ensures AllBound(c, v, res)
  {
    forall key | key in res.groups ensures GroupBound(c, v, res.groups[key]) && GroupPermitted(c, v, res.groups[key]) {
      assert key in EntitiesOf(res, Groups) && EntitiesOf(res, Groups)[key].id == res.groups[key].entity.id;
      CoveredGroupBinds(c, res, v, res.groups[key]);
    }
  }
}
