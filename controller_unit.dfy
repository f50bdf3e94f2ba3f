/** One controller (`abstract_interface` in controller/controller_interface.h):
    an identifier, a mutable name, a liveness flag and the virtual members a
    concrete controller class may override. Its place in the controller tree
    is the arena handle the manager keeps it under. */
module ControllerUnit {
  import opened Ids
  import opened Parameters

  /** What a concrete controller class fixes by overriding `get_type`,
      `get_type_id` and `clone_prototype` (whether a clone comes back). A
      class that overrides none of them has `Kind("", -1, false)`. */
  datatype Kind = Kind(typeName: string, typeId: int, clonable: bool)

  /** `simple_root_controller`: type "root", type id 0, default clone. */
  const RootKind: Kind := Kind("root", 0, false)

  /** The default `control()`: control continues to the children. */
  const DefaultControl: bool := true

  class Unit {
    const id: IdType
    const kind: Kind
    var name: string
    var alive: bool

    /** The `abstract_interface` constructor: empty name, alive. */
    constructor(id: IdType, kind: Kind)
      ensures this.id == id && this.kind == kind
      ensures name == "" && alive
    {
      this.id := id;
      this.kind := kind;
      name := "";
      alive := true;
    }

    /** `get_type`. */
    method GetType() returns (t: string)
      ensures t == kind.typeName
    {
      t := kind.typeName;
    }

    /** `get_type_id`. */
    method GetTypeId() returns (t: int)
      ensures t == kind.typeId
    {
      t := kind.typeId;
    }

    /** `get_name`. */
    method GetName() returns (v: string)
      ensures v == name
    {
      v := name;
    }

    /** `set_name`: a later `get_name` returns `v`; liveness is untouched. */
    method SetName(v: string)
      modifies this
      ensures name == v && alive == old(alive)
      ensures (name, alive) == Apply(old(name), old(alive), [SetNameCall(v)])
    {
      name := v;
    }

    /** `is_alive`. */
    method IsAlive() returns (a: bool)
      ensures a == alive
    {
      a := alive;
    }

    /** `remove_self`: the controller is dead from now on; its name stays. */
    method RemoveSelf()
      modifies this
      ensures !alive && name == old(name)
      ensures (name, alive) == Apply(old(name), old(alive), [RemoveSelfCall])
    {
      alive := false;
    }

    /** The default `handle_message`: it changes nothing. */
    method HandleMessage(message: Param, params: ParamList, from: Unit)
      ensures name == old(name) && alive == old(alive)
    {
    }
  }

  /** A call that changes a controller's state. */
  datatype Call = SetNameCall(v: string) | RemoveSelfCall

  /** The name and liveness after a sequence of calls, each as `SetName`
      and `RemoveSelf` above perform it. */
  function Apply(name: string, alive: bool, calls: seq<Call>): (r: (string, bool))
  {
    if |calls| == 0 then (name, alive)
    else
      var (n, a) := Apply(name, alive, calls[..|calls| - 1]);
      match calls[|calls| - 1]
      case SetNameCall(v) => (v, a)
      case RemoveSelfCall => (n, false)
  }

  /** Liveness only ever goes from true to false: after any sequence of
      calls a controller is alive exactly when it was alive before and no
      `remove_self` happened. */
  lemma {:induction false} LivenessMonotone(name: string, alive: bool, calls: seq<Call>)
    ensures Apply(name, alive, calls).1 <==> alive && RemoveSelfCall !in calls
  {
    if |calls| > 0 {
      var init := calls[..|calls| - 1];
      LivenessMonotone(name, alive, init);
      assert calls == init + [calls[|calls| - 1]];
    }
  }

  /** The name after a sequence of calls is the last one set, if any. */
  lemma {:induction false} NameIsLastSet(name: string, alive: bool, calls: seq<Call>, i: nat)
    requires i < |calls| && calls[i].SetNameCall?
    requires forall j :: i < j < |calls| ==> calls[j].RemoveSelfCall?
    ensures Apply(name, alive, calls).0 == calls[i].v
  {
    if i < |calls| - 1 {
      NameIsLastSet(name, alive, calls[..|calls| - 1], i);
    }
  }
}
