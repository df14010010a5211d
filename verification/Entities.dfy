/** Coordinates, resolved entities, and the nested property lookup on them. */
module Entities {

  datatype Option<+T> = None | Some(value: T)

  /** The id of a config's node in the dependency graph: its position in the list of configs. */
  datatype NodeId = NodeId(index: nat)

  datatype Coordinate = Coordinate(project: string, configType: string, configId: string)

  /** A property value. Only a string-keyed map can be looked into; everything else is a scalar. */
  datatype Value = Scalar(text: string) | Nested(fields: map<string, Value>)

  type Properties = map<string, Value>

  datatype ResolvedEntity = ResolvedEntity(coordinate: Coordinate, properties: Properties, skip: bool)

  // ---------------------------------------------------------------------------
  // Dotted keys
  // ---------------------------------------------------------------------------

  datatype Pieces = Pieces(first: string, rest: string, found: bool)

  /** Cuts `s` around its first dot. */
  function Cut(s: string): (r: Pieces)
    ensures '.' !in r.first
    ensures r.found <==> '.' in s
    ensures s == if r.found then r.first + "." + r.rest else r.first
    ensures !r.found ==> r.rest == ""
  {
    if s == "" then Pieces("", "", false)
    else if s[0] == '.' then Pieces("", s[1..], true)
    else
      var r := Cut(s[1..]);
      Pieces([s[0]] + r.first, r.rest, r.found)
  }

  /** The segments between the dots of `s`. */
  function Split(s: string): (r: seq<string>)
    ensures |r| > 0
    decreases |s|
  {
    var p := Cut(s);
    if p.found then [p.first] + Split(p.rest) else [s]
  }

  predicate EndsWithDot(key: string) {
    |key| > 0 && key[|key| - 1] == '.'
  }

  function DropTrailingDot(key: string): string {
    if EndsWithDot(key) then key[..|key| - 1] else key
  }

  /** The segments that a lookup follows. */
  function PathOf(key: string): (r: seq<string>)
    ensures |r| > 0
  {
    Split(DropTrailingDot(key))
  }

  /** Follows a path one single-key lookup at a time. */
  function Follow(path: seq<string>, v: Value): Option<Value>
    decreases |path|
  {
    if path == [] then Some(v)
    else if v.Nested? && path[0] in v.fields then Follow(path[1..], v.fields[path[0]])
    else None
  }

  /** Looks a dotted key up in nested maps. */
  function ResolvePropValue(key: string, props: Properties): Option<Value>
    decreases |key|
  {
    var p := Cut(key);
    if p.first !in props then None
    else if p.rest == "" then Some(props[p.first])
    else if props[p.first].Nested? then
      if '.' in p.rest then ResolvePropValue(p.rest, props[p.first].fields)
      else if p.rest in props[p.first].fields then Some(props[p.first].fields[p.rest])
      else None
    else None
  }

  lemma {:induction false} CutAtFirstDot(a: string, b: string)
    requires '.' !in a
    ensures Cut(a + "." + b) == Pieces(a, b, true)
    decreases |a|
  {
    var s := a + "." + b;
    if a == "" {
      assert s == "." + b && s[1..] == b;
    } else {
      assert s[1..] == a[1..] + "." + b;
      CutAtFirstDot(a[1..], b);
      assert a == [a[0]] + a[1..];
    }
  }

  lemma FollowStep(a: string, tail: seq<string>, props: Properties)
    ensures Follow([a] + tail, Nested(props)) == if a in props then Follow(tail, props[a]) else None
  {
    assert ([a] + tail)[1..] == tail;
  }

  lemma FollowOne(key: string, props: Properties)
    ensures Follow([key], Nested(props)) == if key in props then Some(props[key]) else None
  {
    FollowStep(key, [], props);
    assert [key] + [] == [key];
  }

  /** Dropping a trailing dot and splitting, one segment at a time. */
  lemma SplitDropped(key: string)
    ensures var p := Cut(key);
      if p.rest == "" then PathOf(key) == [p.first]
      else PathOf(key) == [p.first] + PathOf(p.rest)
  {
    var p := Cut(key);
    if !p.found {
      assert DropTrailingDot(key) == key;
    } else if p.rest == "" {
      assert DropTrailingDot(key) == p.first;
    } else {
      var tail := DropTrailingDot(p.rest);
      assert DropTrailingDot(key) == p.first + "." + tail;
      CutAtFirstDot(p.first, tail);
    }
  }

  /** The lookup follows the dot-separated path, except that one trailing dot is ignored. */
  lemma {:induction false} LookupFollowsPath(key: string, props: Properties)
    ensures ResolvePropValue(key, props) == Follow(PathOf(key), Nested(props))
    decreases |key|
  {
    var p := Cut(key);
    SplitDropped(key);
    if p.rest == "" {
      FollowOne(p.first, props);
    } else {
      var tail := PathOf(p.rest);
      FollowStep(p.first, tail, props);
      if p.first in props && props[p.first].Nested? {
        var inner := props[p.first].fields;
        if '.' in p.rest {
          LookupFollowsPath(p.rest, inner);
        } else {
          SplitDropped(p.rest);
          FollowOne(p.rest, inner);
        }
      }
    }
  }

  /** The single-branch value that holds a scalar exactly at `path`. */
  function Along(path: seq<string>): Value {
    if path == [] then Scalar("") else Nested(map[path[0] := Along(path[1..])])
  }

  lemma {:induction false} FollowAlong(path: seq<string>, more: seq<string>)
    ensures Follow(path + more, Along(path)) == if more == [] then Some(Scalar("")) else None
    decreases |path|
  {
    if path != [] {
      assert (path + more)[1..] == path[1..] + more;
      FollowAlong(path[1..], more);
    } else {
      assert path + more == more;
    }
  }

  lemma {:induction false} SplitTrailingDot(s: string)
    ensures Split(s + ".") == Split(s) + [""]
    decreases |s|
  {
    var p := Cut(s);
    if p.found {
      assert s + "." == p.first + "." + (p.rest + ".");
      CutAtFirstDot(p.first, p.rest + ".");
      SplitTrailingDot(p.rest);
      assert [p.first] + (Split(p.rest) + [""]) == [p.first] + Split(p.rest) + [""];
    } else {
      assert s + "." == s + "." + "";
      CutAtFirstDot(s, "");
      assert Split(s + ".") == [s] + Split("");
      assert Cut("") == Pieces("", "", false);
    }
  }

  /** The lookup agrees with following every segment of the key exactly for keys that do not end in a dot. */
  lemma LookupAgreesIff(key: string)
    ensures (forall props: Properties :: ResolvePropValue(key, props) == Follow(Split(key), Nested(props)))
       <==> !EndsWithDot(key)
  {
    if EndsWithDot(key) {
      var stem := DropTrailingDot(key);
      assert key == stem + ".";
      SplitTrailingDot(stem);
      var props := Along(Split(stem)).fields;
      LookupFollowsPath(key, props);
      FollowAlong(Split(stem), []);
      assert Split(stem) + [] == Split(stem);
      FollowAlong(Split(stem), [""]);
      assert ResolvePropValue(key, props) != Follow(Split(key), Nested(props));
    } else {
      forall props: Properties ensures ResolvePropValue(key, props) == Follow(Split(key), Nested(props)) {
        LookupFollowsPath(key, props);
      }
    }
  }

  /** With a trailing dot it need not: here the lookup finds a value although there is nothing to look into. */
  lemma TrailingDotIsIgnored()
    ensures var props: Properties := map["a" := Scalar("x")];
      ResolvePropValue("a.", props) == Some(Scalar("x")) && Follow(Split("a."), Nested(props)) == None
  {
    var props: Properties := map["a" := Scalar("x")];
    CutAtFirstDot("a", "");
    assert "a" + "." + "" == "a.";
    SplitTrailingDot("a");
    assert Split("a.") == ["a", ""];
    FollowStep("a", [""], props);
    assert ["a"] + [""] == ["a", ""];
  }

  // ---------------------------------------------------------------------------
  // The shared map of resolved entities
  // ---------------------------------------------------------------------------

  class EntityMap {
    var resolvedEntities: map<Coordinate, ResolvedEntity>

    constructor ()
      ensures resolvedEntities == map[]
    {
      resolvedEntities := map[];
    }

    /** Stores an entity under its own coordinate and changes no other entry. */
    method Put(resolvedEntity: ResolvedEntity)
      modifies this
      ensures resolvedEntities == old(resolvedEntities)[resolvedEntity.coordinate := resolvedEntity]
    {
      resolvedEntities := resolvedEntities[resolvedEntity.coordinate := resolvedEntity];
    }

    method GetResolvedEntity(config: Coordinate) returns (r: Option<ResolvedEntity>)
      ensures r.Some? <==> config in resolvedEntities
      ensures r.Some? ==> r.value == resolvedEntities[config]
    {
      r := if config in resolvedEntities then Some(resolvedEntities[config]) else None;
    }

    /** A property of a stored entity, found by following its dotted name; absent for unknown entities. */
    method GetResolvedProperty(coordinate: Coordinate, propertyName: string) returns (r: Option<Value>)
      ensures r == if coordinate in resolvedEntities
                   then Follow(PathOf(propertyName), Nested(resolvedEntities[coordinate].properties))
                   else None
    {
      r := None;
      if coordinate in resolvedEntities {
        var m := resolvedEntities[coordinate].properties;
        LookupFollowsPath(propertyName, m);
        r := ResolvePropValue(propertyName, m);
      }
    }
  }
}
