/** The attribute map every entity carries (`CParams`), keyed by name and
    holding values of the closed variant `Shader::UniformValue`. */
module Attributes {
  import opened Wrappers

  /** `std::variant<int, float, bool, glm::vec2, glm::vec3, glm::vec4, glm::mat4, std::string>`.
      Floating-point components are modelled as reals. */
  datatype Value =
    | Int(i: int)
    | Float(f: real)
    | Bool(b: bool)
    | Vec2(x2: real, y2: real)
    | Vec3(x3: real, y3: real, z3: real)
    | Vec4(x4: real, y4: real, z4: real, w4: real)
    | Mat4(cells: seq<real>)
    | Str(s: string)

  /** The alternative a `std::get_if<T>` asks for. */
  datatype Kind = IntKind | FloatKind | BoolKind | Vec2Kind | Vec3Kind | Vec4Kind | Mat4Kind | StrKind

  function KindOf(v: Value): Kind {
    match v
    case Int(_) => IntKind
    case Float(_) => FloatKind
    case Bool(_) => BoolKind
    case Vec2(_, _) => Vec2Kind
    case Vec3(_, _, _) => Vec3Kind
    case Vec4(_, _, _, _) => Vec4Kind
    case Mat4(_) => Mat4Kind
    case Str(_) => StrKind
  }

  /** The numeric reading the console takes of an attribute: a float as it is,
      an int converted, and nothing for every other alternative. */
  function NumericValue(v: Value): (r: Option<real>)
    ensures r.Some? <==> (KindOf(v) == FloatKind || KindOf(v) == IntKind)
    ensures v.Float? ==> r == Some(v.f)
    ensures v.Int? ==> r == Some(v.i as real)
  {
    match v
    case Float(f) => Some(f)
    case Int(i) => Some(i as real)
    case _ => None
  }

  class Params {
    var values: map<string, Value>

    constructor()
      ensures values == map[]
    {
      values := map[];
    }

    /** `Set(name, value)`: stores under `name`, replacing any earlier value. */
    method Set(name: string, value: Value)
      modifies this
      ensures values == old(values)[name := value]
      ensures Get(name) == Some(value)
      ensures forall k :: k != name ==> Get(k) == old(Get(k))
      ensures |values.Keys| == |old(values.Keys)| + (if name in old(values) then 0 else 1)
    {
      values := values[name := value];
    }

    /** The pointer-returning `Get`: the stored value, or null when absent. */
    function Get(name: string): (r: Option<Value>)
      reads this
      ensures r == None <==> name !in values
      ensures r.Some? ==> name in values && values[name] == r.value
    {
      if name in values then Some(values[name]) else None
    }

    /** The typed `Get<T>`: throws when the key is absent or holds another alternative. */
    function GetAs(name: string, kind: Kind): (r: Result<Value, string>)
      reads this
      ensures r.Ok? <==> name in values && KindOf(values[name]) == kind
      ensures r.Ok? ==> r.value == values[name] && KindOf(r.value) == kind
      ensures name !in values ==> r == Err("[Params] Attempted to get nonexistent key: " + name)
      ensures name in values && KindOf(values[name]) != kind ==> r == Err("[Params] Type mismatch for key: " + name)
    {
      if name !in values then Err("[Params] Attempted to get nonexistent key: " + name)
      else if KindOf(values[name]) == kind then Ok(values[name])
      else Err("[Params] Type mismatch for key: " + name)
    }

    /** `GetOr(name, default)`: the stored value when it has the default's
        alternative, otherwise the default. */
    function GetOr(name: string, default: Value): (r: Value)
      reads this
      ensures KindOf(r) == KindOf(default)
      ensures r == default || (name in values && r == values[name])
      ensures name in values && KindOf(values[name]) == KindOf(default) ==> r == values[name]
    {
      if name in values && KindOf(values[name]) == KindOf(default) then values[name] else default
    }

    /** `Remove(name)`: true exactly when something was erased. */
    method Remove(name: string) returns (removed: bool)
      modifies this
      ensures removed == old(Has(name))
      ensures !Has(name)
      ensures values == old(values) - {name}
      ensures forall k :: k != name ==> Get(k) == old(Get(k))
    {
      removed := name in values;
      values := values - {name};
    }

    /** `Has(name)`: agrees with the pointer-returning `Get`, and an absent
        name makes every typed `Get<T>` throw the nonexistent-key error. */
    function Has(name: string): (h: bool)
      reads this
      ensures h <==> Get(name).Some?
      ensures !h ==> forall kind :: GetAs(name, kind) == Err("[Params] Attempted to get nonexistent key: " + name)
    {
      name in values
    }
  }

  /** `GetOr` agrees with the typed `Get`: it yields what `Get<T>` returns and
      falls back to the default exactly where `Get<T>` would throw. */
  lemma GetOrMatchesGetAs(p: Params, name: string, default: Value)
    ensures p.GetOr(name, default) == (match p.GetAs(name, KindOf(default))
                                       case Ok(v) => v
                                       case Err(_) => default)
  {
  }
}
