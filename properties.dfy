/** The property manager of utilities/property_manager.h: a map from an index
    to a property value. Reading an index that was never written inserts the
    default value of the property type, as `operator[]` of the standard
    associative containers does. */
module Property {

  /** An access to a manager: `set_property` or `get_property`. */
  datatype Access<K, V> = Write(key: K, value: V) | Read(key: K)

  /** The map after one access: a write binds the index, a read of a missing
      index binds it to `default`, a read of a present index changes nothing. */
  function Apply<K(==), V>(m: map<K, V>, a: Access<K, V>, default: V): map<K, V> {
    match a
    case Write(k, v) => m[k := v]
    case Read(k) => if k in m then m else m[k := default]
  }

  /** The map after the accesses `ops`, starting from an empty manager. */
  function Replay<K(==), V>(ops: seq<Access<K, V>>, default: V): map<K, V> {
    if |ops| == 0 then map[]
    else Apply(Replay(ops[..|ops| - 1], default), ops[|ops| - 1], default)
  }

  /** The value last written under `k`, or `default` when there was none. */
  function Latest<K(==), V>(ops: seq<Access<K, V>>, k: K, default: V): V {
    if |ops| == 0 then default
    else if ops[|ops| - 1].Write? && ops[|ops| - 1].key == k then ops[|ops| - 1].value
    else Latest(ops[..|ops| - 1], k, default)
  }

  /** Some access, written or read, has named the index `k`. */
  ghost predicate Touched<K, V>(ops: seq<Access<K, V>>, k: K) {
    exists i :: 0 <= i < |ops| && ops[i].key == k
  }

  /** The replayed map holds exactly the indices ever written or read, and
      each holds the value last written to it, or the default value when
      it was only read. */
  lemma {:induction false} ReplayLatest<K, V>(ops: seq<Access<K, V>>, k: K, default: V)
    ensures k in Replay(ops, default) <==> Touched(ops, k)
    ensures k in Replay(ops, default) ==> Replay(ops, default)[k] == Latest(ops, k, default)
    ensures !Touched(ops, k) ==> Latest(ops, k, default) == default
  {
    if |ops| > 0 {
      var init := ops[..|ops| - 1];
      var last := ops[|ops| - 1];
      ReplayLatest(init, k, default);
      if Touched(init, k) {
        var i :| 0 <= i < |init| && init[i].key == k;
        assert ops[i].key == k;
      }
      if last.key == k {
        assert ops[|ops| - 1].key == k;
      }
      if Touched(ops, k) && !Touched(init, k) {
        var i :| 0 <= i < |ops| && ops[i].key == k;
        assert i == |ops| - 1 by {
          if i < |init| {
            assert false;
          }
        }
      }
    }
  }

  /** A manager of properties of type `V` indexed by `K`. `default` is the
      value a default-constructed `V` has; the ghost history records every
      access so far. */
  class GenericManager<K(==), V> {
    var properties: map<K, V>
    const default: V
    ghost var history: seq<Access<K, V>>

    ghost predicate Valid()
      reads this
    {
      properties == Replay(history, default)
    }

    /** The default constructor: no properties. */
    constructor(default: V)
      ensures Valid() && properties == map[] && history == [] && this.default == default
    {
      properties := map[];
      this.default := default;
      history := [];
    }

    /** The copy constructor: the same indices with the same values. */
    constructor Copy(other: GenericManager<K, V>)
      requires other.Valid()
      ensures Valid() && properties == other.properties && default == other.default
      ensures history == other.history
    {
      properties := other.properties;
      default := other.default;
      history := other.history;
    }

    /** `set_property`: binds `k` to `v`, replacing any earlier value;
        every other index keeps its value. */
    method SetProperty(k: K, v: V)
      requires Valid()
      modifies this
      ensures Valid() && history == old(history) + [Write(k, v)]
      ensures properties == old(properties)[k := v]
    {
      properties := properties[k := v];
      history := history + [Write(k, v)];
      assert history[..|history| - 1] == old(history);
    }

    /** `get_property`: the value last set under `k`, or the default value
        when none was set. A missing index is inserted with the default
        value; a present one leaves the map as it was. */
    method GetProperty(k: K) returns (v: V)
      requires Valid()
      modifies this
      ensures Valid() && history == old(history) + [Read(k)]
      ensures v == Latest(old(history), k, default)
      ensures properties == old(properties)[k := v]
      ensures k in old(properties) ==> properties == old(properties)
    {
      ReplayLatest(history, k, default);
      if k !in properties {
        properties := properties[k := default];
      }
      v := properties[k];
      history := history + [Read(k)];
      assert history[..|history| - 1] == old(history);
    }
  }

  /** What the accesses promise together: a value just set is the one read
      back, setting one index leaves what every other index reads as it
      was, a read changes what no later read returns, and an index never
      set reads as the default value. */
  lemma PropertyFacts<K, V>(ops: seq<Access<K, V>>, k: K, k': K, v: V, default: V)
    ensures Latest(ops + [Write(k, v)], k, default) == v
    ensures k' != k ==> Latest(ops + [Write(k, v)], k', default) == Latest(ops, k', default)
    ensures Latest(ops + [Read(k)], k', default) == Latest(ops, k', default)
    ensures Replay(ops + [Read(k)], default)[k] == Latest(ops, k, default)
  {
    var ops' := ops + [Read(k)];
    assert ops'[..|ops|] == ops;
    assert (ops + [Write(k, v)])[..|ops|] == ops;
    ReplayLatest(ops, k, default);
  }
}
