/** The table of remote identifiers that the phases of an account deployment share, and its lookups. */
module IdMaps {
  import opened Entities

  type LocalId = string

  type RemoteId = string

  datatype Kind = Boundaries | Policies | Groups

  datatype Zone = Zone(id: RemoteId, parent: string, name: string)

  /** One write to the table: identifiers of one kind, or management zones. */
  datatype Stored = Ids(kind: Kind, ids: map<LocalId, RemoteId>) | Zones(zones: seq<Zone>)

  /** The contents of the table. A missing identifier reads as the empty string. */
  datatype View = View(bndIds: map<LocalId, RemoteId>, polIds: map<LocalId, RemoteId>, grIds: map<LocalId, RemoteId>,
                       mzIds: seq<Zone>) {
    function Table(kind: Kind): map<LocalId, RemoteId> {
      match kind
      case Boundaries => bndIds
      case Policies => polIds
      case Groups => grIds
    }

    function Lookup(kind: Kind, id: LocalId): RemoteId {
      if id in Table(kind) then Table(kind)[id] else ""
    }

    function Apply(x: Stored): View {
      match x
      case Ids(Boundaries, ids) => this.(bndIds := bndIds + ids)
      case Ids(Policies, ids) => this.(polIds := polIds + ids)
      case Ids(Groups, ids) => this.(grIds := grIds + ids)
      case Zones(zones) => this.(mzIds := mzIds + zones)
    }

    function Replay(writes: seq<Stored>): View {
      if writes == [] then this else Replay(writes[..|writes| - 1]).Apply(writes[|writes| - 1])
    }
  }

  class IdMap {
    var bndIds: map<LocalId, RemoteId>
    var polIds: map<LocalId, RemoteId>
    var grIds: map<LocalId, RemoteId>
    var mzIds: seq<Zone>

    function Contents(): View
      reads this
    {
      View(bndIds, polIds, grIds, mzIds)
    }

    constructor ()
      ensures Contents() == View(map[], map[], map[], [])
    {
      bndIds, polIds, grIds, mzIds := map[], map[], map[], [];
    }

    /** The six methods that add boundaries, policies or groups, one or many at a time. */
    method AddIds(kind: Kind, ids: map<LocalId, RemoteId>)
      modifies this
      ensures Contents() == old(Contents()).Apply(Ids(kind, ids))
    {
      match kind
      case Boundaries => bndIds := bndIds + ids;
      case Policies => polIds := polIds + ids;
      case Groups => grIds := grIds + ids;
    }

    method AddMZones(zones: seq<Zone>)
      modifies this
      ensures Contents() == old(Contents()).Apply(Zones(zones))
      ensures Contents() == View(old(bndIds), old(polIds), old(grIds), old(mzIds) + zones)
    {
      mzIds := mzIds + zones;
    }

    /** `getBoundaryUUID`, `getPolicyUUID` and `getGroupUUID`. */
    method GetUUID(kind: Kind, id: LocalId) returns (remote: RemoteId)
      ensures remote == Contents().Lookup(kind, id)
    {
      match kind
      case Boundaries => remote := if id in bndIds then bndIds[id] else "";
      case Policies => remote := if id in polIds then polIds[id] else "";
      case Groups => remote := if id in grIds then grIds[id] else "";
    }

    /** The first zone of that name and parent decides, even when its identifier is empty. */
    method GetMZoneUUID(envName: string, mzName: string) returns (id: RemoteId)
      ensures id == ZoneId(mzIds, envName, mzName)
      ensures forall i :: FirstZone(mzIds, envName, mzName, i) ==> id == mzIds[i].id
      ensures NoZone(mzIds, envName, mzName) ==> id == ""
    {
      var i := 0;
      while i < |mzIds|
        invariant 0 <= i <= |mzIds|
        invariant ZoneId(mzIds, envName, mzName) == ZoneId(mzIds[i..], envName, mzName)
      {
        if mzIds[i].parent == envName && mzIds[i].name == mzName {
          ZoneIdIsFirst(mzIds, envName, mzName);
          return mzIds[i].id;
        }
        i := i + 1;
      }
      ZoneIdIsFirst(mzIds, envName, mzName);
      id := "";
    }

    /** Replays the stored results of a phase in the order in which its jobs stored them. */
    method Store(writes: seq<Stored>)
      modifies this
      ensures Contents() == old(Contents()).Replay(writes)
    {
      var i := 0;
      while i < |writes|
        invariant 0 <= i <= |writes|
        invariant Contents() == old(Contents()).Replay(writes[..i])
      {
        assert writes[..i + 1][..i] == writes[..i];
        match writes[i] {
          case Ids(kind, ids) => AddIds(kind, ids);
          case Zones(zones) => AddMZones(zones);
        }
        i := i + 1;
      }
      assert writes[..i] == writes;
    }
  }

  function ZoneId(zones: seq<Zone>, envName: string, mzName: string): RemoteId {
    if zones == [] then ""
    else if zones[0].parent == envName && zones[0].name == mzName then zones[0].id
    else ZoneId(zones[1..], envName, mzName)
  }

  /** The zone at `i` has this name and parent, and no earlier one does. */
  predicate FirstZone(zones: seq<Zone>, envName: string, mzName: string, i: int) {
    && 0 <= i < |zones| && zones[i].parent == envName && zones[i].name == mzName
    && forall j :: 0 <= j < i ==> zones[j].parent != envName || zones[j].name != mzName
  }

  predicate NoZone(zones: seq<Zone>, envName: string, mzName: string) {
    forall i :: 0 <= i < |zones| ==> zones[i].parent != envName || zones[i].name != mzName
  }

  /** The lookup gives the identifier of the first zone of that name and parent, or the empty string. */
  lemma {:induction false} ZoneIdIsFirst(zones: seq<Zone>, envName: string, mzName: string)
    ensures forall i :: FirstZone(zones, envName, mzName, i) ==> ZoneId(zones, envName, mzName) == zones[i].id
    ensures NoZone(zones, envName, mzName) ==> ZoneId(zones, envName, mzName) == ""
    ensures NoZone(zones, envName, mzName) || exists i :: FirstZone(zones, envName, mzName, i)
    decreases |zones|
  {
    if zones == [] {
    } else if zones[0].parent == envName && zones[0].name == mzName {
      assert FirstZone(zones, envName, mzName, 0);
    } else {
      var rest := zones[1..];
      ZoneIdIsFirst(rest, envName, mzName);
      forall i | FirstZone(zones, envName, mzName, i) ensures ZoneId(zones, envName, mzName) == zones[i].id {
        assert FirstZone(rest, envName, mzName, i - 1) by {
          assert forall j :: 0 <= j < i - 1 ==> rest[j] == zones[j + 1];
        }
      }
      if NoZone(zones, envName, mzName) {
        assert forall j :: 0 <= j < |rest| ==> rest[j] == zones[j + 1];
      }
      if i :| FirstZone(rest, envName, mzName, i) {
        assert FirstZone(zones, envName, mzName, i + 1) by {
          assert forall j :: 1 <= j < i + 1 ==> zones[j] == rest[j - 1];
        }
      }
    }
  }

  // ---------------------------------------------------------------------------
  // What a table holds after some writes
  // ---------------------------------------------------------------------------

  predicate Writes(x: Stored, kind: Kind, id: LocalId) {
    x.Ids? && x.kind == kind && id in x.ids
  }

  /** An identifier reads as the value of one of the writes to it, or as before if there were none. */
  lemma {:induction false} ReplayLookup(v: View, writes: seq<Stored>, kind: Kind, id: LocalId)
    ensures if exists i :: 0 <= i < |writes| && Writes(writes[i], kind, id)
            then exists i :: 0 <= i < |writes| && Writes(writes[i], kind, id)
                   && v.Replay(writes).Lookup(kind, id) == writes[i].ids[id]
            else v.Replay(writes).Lookup(kind, id) == v.Lookup(kind, id)
  {
    if writes != [] {
      var n := |writes| - 1;
      if Writes(writes[n], kind, id) {
        assert v.Replay(writes).Lookup(kind, id) == writes[n].ids[id];
      } else {
        ReplayLookup(v, writes[..n], kind, id);
        LookupUnwritten(v.Replay(writes[..n]), writes[n], kind, id);
        assert forall i :: 0 <= i < n ==> writes[..n][i] == writes[i];
      }
    }
  }

  lemma LookupUnwritten(v: View, x: Stored, kind: Kind, id: LocalId)
    requires !Writes(x, kind, id)
    ensures v.Apply(x).Lookup(kind, id) == v.Lookup(kind, id)
  {
  }

  /** No zone is lost or invented. */
  lemma {:induction false} ReplayZones(v: View, writes: seq<Stored>, z: Zone)
    ensures z in v.Replay(writes).mzIds <==>
      z in v.mzIds || exists i :: 0 <= i < |writes| && writes[i].Zones? && z in writes[i].zones
  {
    if writes != [] {
      var n := |writes| - 1;
      ReplayZones(v, writes[..n], z);
      assert forall i :: 0 <= i < n ==> writes[..n][i] == writes[i];
      assert z in v.Replay(writes).mzIds <==>
        z in v.Replay(writes[..n]).mzIds || (writes[n].Zones? && z in writes[n].zones);
    }
  }

  /** When every zone has an identifier, the lookup finds exactly the zones that are there. */
  lemma {:induction false} ZoneFound(zones: seq<Zone>, envName: string, mzName: string)
    requires forall z :: z in zones ==> z.id != ""
    ensures ZoneId(zones, envName, mzName) != "" <==> exists z :: z in zones && z.parent == envName && z.name == mzName
  {
    if zones != [] {
      assert zones[0] in zones;
      assert forall z :: z in zones <==> z == zones[0] || z in zones[1..];
      if zones[0].parent != envName || zones[0].name != mzName {
        ZoneFound(zones[1..], envName, mzName);
      }
    }
  }

  // ---------------------------------------------------------------------------
  // Resolving references
  // ---------------------------------------------------------------------------

  datatype Resolution<T> = Resolved(value: T) | NotFound(missing: seq<LocalId>)

  function Missing(v: View, kind: Kind, items: seq<LocalId>): seq<LocalId> {
    if items == [] then []
    else
      var n := |items| - 1;
      Missing(v, kind, items[..n]) + if v.Lookup(kind, items[n]) == "" then [items[n]] else []
  }

  predicate AllKnown(v: View, kind: Kind, items: seq<LocalId>) {
    forall i :: 0 <= i < |items| ==> v.Lookup(kind, items[i]) != ""
  }

  function Lookups(v: View, kind: Kind, items: seq<LocalId>): seq<RemoteId> {
    seq(|items|, i requires 0 <= i < |items| => v.Lookup(kind, items[i]))
  }

  /** The identifiers that the items read as, one by one. */
  predicate IsLookedUp(v: View, kind: Kind, items: seq<LocalId>, remotes: seq<RemoteId>) {
    |remotes| == |items| && forall i :: 0 <= i < |items| ==> remotes[i] == v.Lookup(kind, items[i])
  }

  lemma {:induction false} NothingMissing(v: View, kind: Kind, items: seq<LocalId>)
    ensures Missing(v, kind, items) == [] <==> AllKnown(v, kind, items)
  {
    if items != [] {
      NothingMissing(v, kind, items[..|items| - 1]);
    }
  }

  /** Exactly the references that read as the empty string are missing. */
  lemma {:induction false} MissingMembers(v: View, kind: Kind, items: seq<LocalId>)
    ensures forall x :: x in Missing(v, kind, items) <==> x in items && v.Lookup(kind, x) == ""
  {
    if items != [] {
      var n := |items| - 1;
      MissingMembers(v, kind, items[..n]);
      assert items == items[..n] + [items[n]];
    }
  }

  lemma MissingGrows(v: View, kind: Kind, items: seq<LocalId>, i: nat)
    requires i < |items|
    ensures Missing(v, kind, items[..i + 1])
         == Missing(v, kind, items[..i]) + if v.Lookup(kind, items[i]) == "" then [items[i]] else []
  {
    assert items[..i + 1][..i] == items[..i];
  }

  /** All references resolve, in order, or the error names exactly those that do not. */
  method ProcessItems(ids: IdMap, items: seq<LocalId>, kind: Kind) returns (r: Resolution<seq<RemoteId>>)
    ensures r.Resolved? <==> AllKnown(ids.Contents(), kind, items)
    ensures r.Resolved? ==> r.value == Lookups(ids.Contents(), kind, items)
    ensures r.NotFound? ==> r.missing == Missing(ids.Contents(), kind, items)
    ensures r.Resolved? ==> IsLookedUp(ids.Contents(), kind, items, r.value)
    ensures r.NotFound? ==> forall x :: x in r.missing <==> x in items && ids.Contents().Lookup(kind, x) == ""
  {
    var found: seq<RemoteId> := [];
    var notFound: seq<LocalId> := [];
    ghost var v := ids.Contents();
    var i := 0;
    while i < |items|
      invariant 0 <= i <= |items|
      invariant notFound == Missing(v, kind, items[..i])
      invariant |found| + |notFound| == i
      invariant notFound == [] ==> forall j :: 0 <= j < i ==> found[j] == v.Lookup(kind, items[j])
    {
      MissingGrows(v, kind, items, i);
      var rid := ids.GetUUID(kind, items[i]);
      if rid == "" {
        notFound := notFound + [items[i]];
      } else {
        found := found + [rid];
      }
      i := i + 1;
    }
    assert items[..i] == items;
    NothingMissing(v, kind, items);
    MissingMembers(v, kind, items);
    r := if |notFound| > 0 then NotFound(notFound) else Resolved(found);
  }

  datatype Binding = Binding(policy: LocalId, boundaries: seq<LocalId>)

  predicate BindingKnown(v: View, b: Binding) {
    v.Lookup(Policies, b.policy) != "" && AllKnown(v, Boundaries, b.boundaries)
  }

  predicate BindingsKnown(v: View, items: seq<Binding>) {
    forall i :: 0 <= i < |items| ==> BindingKnown(v, items[i])
  }

  /** The policies of the items, each with its boundaries; of two bindings of a policy the later one counts. */
  function BindingTable(v: View, items: seq<Binding>): map<RemoteId, seq<RemoteId>> {
    if items == [] then map[]
    else
      var b := items[|items| - 1];
      BindingTable(v, items[..|items| - 1])[v.Lookup(Policies, b.policy) := Lookups(v, Boundaries, b.boundaries)]
  }

  /** The table has the last binding of each policy, and nothing else. */
  lemma {:induction false} LastBindingCounts(v: View, items: seq<Binding>, p: RemoteId)
    ensures p in BindingTable(v, items) <==> exists i :: 0 <= i < |items| && v.Lookup(Policies, items[i].policy) == p
    ensures p in BindingTable(v, items) ==> exists i ::
      && 0 <= i < |items| && v.Lookup(Policies, items[i].policy) == p
      && IsLookedUp(v, Boundaries, items[i].boundaries, BindingTable(v, items)[p])
      && forall j :: i < j < |items| ==> v.Lookup(Policies, items[j].policy) != p
  {
    if items != [] {
      var n := |items| - 1;
      LastBindingCounts(v, items[..n], p);
      assert forall i :: 0 <= i < n ==> items[..n][i] == items[i];
      if v.Lookup(Policies, items[n].policy) == p {
        assert IsLookedUp(v, Boundaries, items[n].boundaries, BindingTable(v, items)[p]);
      }
    }
  }

  predicate IsLastBinding(v: View, items: seq<Binding>, p: RemoteId, i: int) {
    && 0 <= i < |items| && v.Lookup(Policies, items[i].policy) == p
    && forall j :: i < j < |items| ==> v.Lookup(Policies, items[j].policy) != p
  }

  /** `refs` has exactly the bound policies, each with the boundaries of its last binding. */
  ghost predicate AreBindings(v: View, items: seq<Binding>, refs: map<RemoteId, seq<RemoteId>>) {
    && (forall p :: p in refs <==> exists i :: IsLastBinding(v, items, p, i))
    && forall p, i :: p in refs && IsLastBinding(v, items, p, i) ==>
         IsLookedUp(v, Boundaries, items[i].boundaries, refs[p])
  }

  lemma AreBindingsIff(v: View, items: seq<Binding>, refs: map<RemoteId, seq<RemoteId>>)
    ensures AreBindings(v, items, refs) <==> refs == BindingTable(v, items)
  {
    var t := BindingTable(v, items);
    forall p
      ensures p in t <==> exists i :: IsLastBinding(v, items, p, i)
      ensures forall i :: p in t && IsLastBinding(v, items, p, i) ==>
        IsLookedUp(v, Boundaries, items[i].boundaries, t[p])
    {
      BindingInTable(v, items, p);
    }
    if AreBindings(v, items, refs) {
      forall p | p in t ensures p in refs && refs[p] == t[p] {
        var i :| IsLastBinding(v, items, p, i);
        assert IsLookedUp(v, Boundaries, items[i].boundaries, refs[p]);
      }
      assert refs == t;
    }
  }

  lemma BindingInTable(v: View, items: seq<Binding>, p: RemoteId)
    ensures p in BindingTable(v, items) <==> exists i :: IsLastBinding(v, items, p, i)
    ensures forall i :: p in BindingTable(v, items) && IsLastBinding(v, items, p, i) ==>
      IsLookedUp(v, Boundaries, items[i].boundaries, BindingTable(v, items)[p])
  {
    LastBindingCounts(v, items, p);
    if p in BindingTable(v, items) {
      var k :| && 0 <= k < |items| && v.Lookup(Policies, items[k].policy) == p
               && IsLookedUp(v, Boundaries, items[k].boundaries, BindingTable(v, items)[p])
               && forall j :: k < j < |items| ==> v.Lookup(Policies, items[j].policy) != p;
      assert IsLastBinding(v, items, p, k);
      forall i | IsLastBinding(v, items, p, i) ensures i == k {
      }
    }
  }

  method ProcessPolicyBindings(ids: IdMap, items: seq<Binding>) returns (r: Resolution<map<RemoteId, seq<RemoteId>>>)
    ensures r.Resolved? <==> BindingsKnown(ids.Contents(), items)
    ensures r.Resolved? ==> r.value == BindingTable(ids.Contents(), items)
  {
    var refs: map<RemoteId, seq<RemoteId>> := map[];
    ghost var v := ids.Contents();
    var i := 0;
    while i < |items|
      invariant 0 <= i <= |items|
      invariant forall j :: 0 <= j < i ==> BindingKnown(v, items[j])
      invariant refs == BindingTable(v, items[..i])
    {
      var polRef := ids.GetUUID(Policies, items[i].policy);
      if polRef == "" {
        assert !BindingKnown(v, items[i]);
        return NotFound([items[i].policy]);
      }
      var bndRefs := ProcessItems(ids, items[i].boundaries, Boundaries);
      if bndRefs.NotFound? {
        assert !BindingKnown(v, items[i]);
        return NotFound(bndRefs.missing);
      }
      assert items[..i + 1][..i] == items[..i];
      refs := refs[polRef := bndRefs.value];
      i := i + 1;
    }
    assert items[..i] == items;
    r := Resolved(refs);
  }

  datatype EnvironmentAccess = EnvironmentAccess(name: string, permissions: seq<string>, policies: seq<Binding>)

  /** The binding tables per environment; of two entries for one environment the later one counts. */
  function EnvironmentTable(v: View, environments: seq<EnvironmentAccess>): map<string, map<RemoteId, seq<RemoteId>>> {
    if environments == [] then map[]
    else
      var e := environments[|environments| - 1];
      EnvironmentTable(v, environments[..|environments| - 1])[e.name := BindingTable(v, e.policies)]
  }

  /** The table has the bindings of the last entry for an environment. */
  lemma {:induction false} LastEnvironmentCounts(v: View, environments: seq<EnvironmentAccess>, env: string, i: nat)
    requires LastEntry(environments, env, i)
    ensures env in EnvironmentTable(v, environments)
    ensures EnvironmentTable(v, environments)[env] == BindingTable(v, environments[i].policies)
    decreases |environments|
  {
    var n := |environments| - 1;
    if i < n {
      assert LastEntry(environments[..n], env, i);
      LastEnvironmentCounts(v, environments[..n], env, i);
    }
  }

  /** Only environments with an entry are in it. */
  lemma {:induction false} EnvironmentTableKeys(v: View, environments: seq<EnvironmentAccess>, env: string)
    ensures env in EnvironmentTable(v, environments) <==>
      exists i :: 0 <= i < |environments| && environments[i].name == env
  {
    if environments != [] {
      var n := |environments| - 1;
      EnvironmentTableKeys(v, environments[..n], env);
      assert forall i :: 0 <= i < n ==> environments[..n][i] == environments[i];
    }
  }

  predicate LastEntry(environments: seq<EnvironmentAccess>, env: string, i: int) {
    && 0 <= i < |environments| && environments[i].name == env
    && forall j :: i < j < |environments| ==> environments[j].name != env
  }

  method GetEnvPolicyRefs(ids: IdMap, environments: seq<EnvironmentAccess>)
    returns (r: Resolution<map<string, map<RemoteId, seq<RemoteId>>>>)
    ensures r.Resolved? <==>
      forall i :: 0 <= i < |environments| ==> BindingsKnown(ids.Contents(), environments[i].policies)
    ensures r.Resolved? ==> r.value == EnvironmentTable(ids.Contents(), environments)
  {
    var result: map<string, map<RemoteId, seq<RemoteId>>> := map[];
    ghost var v := ids.Contents();
    var i := 0;
    while i < |environments|
      invariant 0 <= i <= |environments|
      invariant forall k :: 0 <= k < i ==> BindingsKnown(v, environments[k].policies)
      invariant result == EnvironmentTable(v, environments[..i])
    {
      var refs := ProcessPolicyBindings(ids, environments[i].policies);
      if refs.NotFound? {
        return NotFound(refs.missing);
      }
      assert environments[..i + 1][..i] == environments[..i];
      result := result[environments[i].name := refs.value];
      i := i + 1;
    }
    assert environments[..i] == environments;
    r := Resolved(result);
  }
}
