/** The entity directory: `World` owns a list of entity handles and resolves a
    name to the first entity carrying it. */
module Directory {
  import opened Wrappers
  import opened Attributes

  /** A `BaseEntity` as far as the console sees it: a name and an attribute map
      owned by the entity. Transform and rendering state are not modelled. */
  class Entity {
    const name: string
    const params: Params

    constructor(name: string)
      ensures this.name == name && fresh(params) && params.values == map[]
    {
      this.name := name;
      params := new Params();
    }
  }

  /** What the evaluators read of an entity: its name and its attributes. */
  datatype EntityView = EntityView(name: string, attrs: map<string, Value>)

  /** Index of the first occurrence of `n` in `names`, if any. */
  function FirstIndexOf(names: seq<string>, n: string): (r: Option<nat>)
    ensures r.None? <==> forall i :: 0 <= i < |names| ==> names[i] != n
    ensures r.Some? ==> r.value < |names| && names[r.value] == n
                        && forall j :: 0 <= j < r.value ==> names[j] != n
  {
    if names == [] then None
    else if names[0] == n then Some(0)
    else match FirstIndexOf(names[1..], n)
      case None => None
      case Some(i) => Some(i + 1)
  }

  function ViewNames(dir: seq<EntityView>): (r: seq<string>)
    ensures |r| == |dir| && forall i :: 0 <= i < |dir| ==> r[i] == dir[i].name
  {
    seq(|dir|, i requires 0 <= i < |dir| => dir[i].name)
  }

  /** Name resolution over a snapshot of the directory: the first entity with that name. */
  function Resolve(dir: seq<EntityView>, n: string): (r: Option<EntityView>)
    ensures r.None? <==> forall i :: 0 <= i < |dir| ==> dir[i].name != n
    ensures r.Some? ==> exists i :: 0 <= i < |dir| && dir[i] == r.value && r.value.name == n
                                    && forall j :: 0 <= j < i ==> dir[j].name != n
  {
    match FirstIndexOf(ViewNames(dir), n)
    case None => None
    case Some(i) => Some(dir[i])
  }

  /** The first occurrence of `e` removed, or `s` itself when `e` does not occur. */
  function RemoveFirst(s: seq<Entity>, e: Entity): (r: seq<Entity>)
    ensures e !in s ==> r == s
    ensures e in s ==> |r| == |s| - 1
  {
    if s == [] then []
    else
      assert s == [s[0]] + s[1..];
      if s[0] == e then s[1..]
      else [s[0]] + RemoveFirst(s[1..], e)
  }

  class World {
    var entities: seq<Entity>
    var root: Entity

    /** `World(name)`: the root entity carries the world's name and is the first element. */
    constructor(name: string := "World")
      ensures entities == [root] && root.name == name && fresh(root) && fresh(root.params)
      ensures root.params.values == map[]
    {
      root := new Entity(name);
      entities := [root];
    }

    function Names(): (r: seq<string>)
      reads this
      ensures |r| == |entities| && forall i :: 0 <= i < |entities| ==> r[i] == entities[i].name
    {
      seq(|entities|, i requires 0 <= i < |entities| reads this => entities[i].name)
    }

    /** `GetEntity(name)`: the first entity in list order with that name, or null. */
    function GetEntity(name: string): (r: Option<Entity>)
      reads this
      ensures r.None? <==> forall i :: 0 <= i < |entities| ==> entities[i].name != name
      ensures r.Some? ==> exists i :: 0 <= i < |entities| && entities[i] == r.value && r.value.name == name
                                      && forall j :: 0 <= j < i ==> entities[j].name != name
    {
      match FirstIndexOf(Names(), name)
      case None => None
      case Some(i) => Some(entities[i])
    }

    /** `GetEntityCount()`: one per listed entity, so positive whenever a
        name resolves. */
    function GetEntityCount(): (n: nat)
      reads this
      ensures n == |Names()|
      ensures forall name :: GetEntity(name).Some? ==> n > 0
    {
      |entities|
    }

    /** `GetEntities()` returns the vector by value: a sequence is a copy. */
    function GetEntities(): seq<Entity>
      reads this
    {
      entities
    }

    function ParamsObjects(): set<Params>
      reads this
    {
      set e | e in entities :: e.params
    }

    /** The snapshot the evaluators resolve names against. */
    function View(): (r: seq<EntityView>)
      reads this, ParamsObjects()
      ensures |r| == |entities|
      ensures forall i :: 0 <= i < |entities| ==>
                r[i] == EntityView(entities[i].name, entities[i].params.values)
    {
      seq(|entities|, i requires 0 <= i < |entities| reads this, ParamsObjects() =>
        EntityView(entities[i].name, entities[i].params.values))
    }

    /** `CreateEntity(...)`: one new entity, appended at the end. */
    method CreateEntity(name: string := "Entity") returns (e: Entity)
      modifies this
      ensures fresh(e) && fresh(e.params) && e.name == name && e.params.values == map[]
      ensures entities == old(entities) + [e] && root == old(root)
      ensures GetEntityCount() == old(GetEntityCount()) + 1
    {
      e := new Entity(name);
      entities := entities + [e];
    }

    /** `AddEntity(entity)`: a null handle is refused, anything else appended. */
    method AddEntity(e: Entity?)
      modifies this
      ensures e == null ==> entities == old(entities)
      ensures e != null ==> entities == old(entities) + [e]
      ensures root == old(root)
    {
      if e == null {
        return;
      }
      entities := entities + [e];
    }

    /** `RemoveEntity(entity)`: erases the first occurrence of that handle only. */
    method RemoveEntity(e: Entity?)
      modifies this
      ensures e == null ==> entities == old(entities)
      ensures e != null ==> entities == RemoveFirst(old(entities), e)
      ensures root == old(root)
    {
      if e == null {
        return;
      }
      var i := 0;
      while i < |entities| && entities[i] != e
        invariant 0 <= i <= |entities|
        invariant forall j :: 0 <= j < i ==> entities[j] != e
      {
        i := i + 1;
      }
      if i < |entities| {
        RemoveFirstAt(entities, e, i);
        entities := entities[..i] + entities[i + 1..];
      } else {
        assert e !in entities;
      }
    }

    /** `Clear()`: afterwards the list is empty. */
    method Clear()
      modifies this
      ensures entities == [] && GetEntityCount() == 0 && root == old(root)
    {
      entities := [];
    }
  }

  /** `RemoveFirst` cuts the list at the first position holding `e`. */
  lemma {:induction false} RemoveFirstAt(s: seq<Entity>, e: Entity, i: nat)
    requires i < |s| && s[i] == e && forall j :: 0 <= j < i ==> s[j] != e
    ensures RemoveFirst(s, e) == s[..i] + s[i + 1..]
  {
    if i > 0 {
      var t := s[1..];
      assert s[0] != e;
      RemoveFirstAt(t, e, i - 1);
      assert RemoveFirst(s, e) == [s[0]] + RemoveFirst(t, e);
      assert t[..i - 1] == s[1..i];
      assert t[i..] == s[i + 1..];
      assert s[..i] == [s[0]] + s[1..i];
    } else {
      assert s[..i] + s[i + 1..] == s[1..];
    }
  }

  /** Removal takes away exactly one copy of the handle and keeps every other one. */
  lemma {:induction false} RemoveFirstRemovesOne(s: seq<Entity>, e: Entity)
    requires e in s
    ensures multiset(RemoveFirst(s, e)) == multiset(s) - multiset{e}
  {
    assert s == [s[0]] + s[1..];
    if s[0] != e {
      RemoveFirstRemovesOne(s[1..], e);
    }
  }

  /** Resolving against a world's snapshot finds the entity `GetEntity` finds. */
  lemma {:induction false} ViewResolvesLikeGetEntity(w: World, n: string)
    ensures Resolve(w.View(), n).None? <==> w.GetEntity(n).None?
    ensures w.GetEntity(n).Some? ==>
              Resolve(w.View(), n) == Some(EntityView(n, w.GetEntity(n).value.params.values))
  {
    var v := w.View();
    assert ViewNames(v) == w.Names();
  }
}
