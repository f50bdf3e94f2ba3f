/** Message payloads (elements/parameter.h). A `parameter` holds one value
    of any copyable type; here the types that the controller and message
    code pass around form a closed set. A `parameter_list` is a sequence. */
module Parameters {
  import opened Optional

  /** The type of a held value. */
  datatype ParamType = IntType | BoolType | TextType | HandleType

  /** A value of one of the types above; a handle may be null. */
  datatype Value =
    | IntValue(i: int)
    | BoolValue(b: bool)
    | TextValue(s: string)
    | HandleValue(h: Option<int>)

  /** A parameter: empty, or holding one value. */
  datatype Param = Empty | Holds(held: Value)

  type ParamList = seq<Param>

  /** The largest list `parameters(...)` builds. */
  const MaxParameters: nat := 14

  function TypeOf(v: Value): ParamType {
    match v
    case IntValue(_) => IntType
    case BoolValue(_) => BoolType
    case TextValue(_) => TextType
    case HandleValue(_) => HandleType
  }

  /** `type()`: the value a default-constructed object of type `t` has. */
  function Default(t: ParamType): (v: Value)
    ensures TypeOf(v) == t
  {
    match t
    case IntType => IntValue(0)
    case BoolType => BoolValue(false)
    case TextType => TextValue("")
    case HandleType => HandleValue(None)
  }

  /** `is_type<T>`: whether the parameter holds a value of type `t`. */
  predicate IsType(t: ParamType, p: Param) {
    p.Holds? && TypeOf(p.held) == t
  }

  /** `create`: a parameter holding `v`. */
  function Create(v: Value): (p: Param)
    ensures IsType(TypeOf(v), p)
    ensures forall t :: IsType(t, p) <==> t == TypeOf(v)
  {
    Holds(v)
  }

  /** `get<T>`: the held value when it has type `t`, otherwise `T()`. */
  function Get(t: ParamType, p: Param): (v: Value)
    ensures TypeOf(v) == t
    ensures IsType(t, p) ==> Create(v) == p
    ensures !IsType(t, p) ==> v == Default(t)
  {
    if IsType(t, p) then p.held else Default(t)
  }

  /** `get(operand, result)`: on a type match, true and the held value;
      otherwise false and `result` unchanged. */
  method GetInto(t: ParamType, p: Param, result: Value) returns (ok: bool, result': Value)
    requires TypeOf(result) == t
    ensures ok <==> IsType(t, p)
    ensures ok ==> Create(result') == p && result' == Get(t, p)
    ensures !ok ==> result' == result
    ensures TypeOf(result') == t
  {
    if p.Holds? && TypeOf(p.held) == t {
      ok, result' := true, p.held;
    } else {
      ok, result' := false, result;
    }
  }

  /** Round trip: reading back a created parameter at its own type yields
      the value, and at any other type yields that type's default. */
  lemma GetCreate(v: Value, t: ParamType)
    ensures t == TypeOf(v) ==> Get(t, Create(v)) == v
    ensures t != TypeOf(v) ==> Get(t, Create(v)) == Default(t)
  {
  }

  /** `parameters(v1, ..., vn)`: a list with `vi` at index `i - 1`, built by
      pushing the values one at a time; from one to fourteen values. */
  method Parameters(vs: seq<Value>) returns (list: ParamList)
    requires 1 <= |vs| <= MaxParameters
    ensures |list| == |vs|
    ensures forall i :: 0 <= i < |vs| ==> list[i] == Create(vs[i]) && Get(TypeOf(vs[i]), list[i]) == vs[i]
  {
    list := [];
    var i := 0;
    while i < |vs|
      invariant 0 <= i <= |vs| && |list| == i
      invariant forall k :: 0 <= k < i ==> list[k] == Create(vs[k])
    {
      list := list + [Create(vs[i])];
      i := i + 1;
    }
  }
}
