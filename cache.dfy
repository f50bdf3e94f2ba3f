/** The data cache of utilities/cache.h: a map from identifiers to smart
    pointers to data. A stored pointer may itself be empty; a lookup of an
    identifier never stored gives the empty pointer. */
module DataCache {
  import opened Optional

  /** What happens to a cache over its life: `cache_data` and `flush`. */
  datatype Op<K, D> = Store(key: K, data: Option<D>) | Clear

  /** The map after the operations `ops`, from an empty cache. */
  function Replay<K(==), D>(ops: seq<Op<K, D>>): map<K, Option<D>> {
    if |ops| == 0 then map[]
    else
      match ops[|ops| - 1]
      case Store(k, d) => Replay(ops[..|ops| - 1])[k := d]
      case Clear => map[]
  }

  /** The data pointer last stored under `k` after the last flush, scanning the
      history backwards; empty when there is none. */
  function LastStored<K(==), D>(ops: seq<Op<K, D>>, k: K): Option<D> {
    if |ops| == 0 then None
    else
      match ops[|ops| - 1]
      case Store(k', d) => if k' == k then d else LastStored(ops[..|ops| - 1], k)
      case Clear => None
  }

  /** `get_data` on a map: the stored pointer, or the empty one. */
  function Lookup<K(==), D>(m: map<K, Option<D>>, k: K): Option<D> {
    if k in m then m[k] else None
  }

  /** Looking an identifier up in the replayed map gives the data pointer last
      cached under it since the last flush, and the empty pointer for an
      identifier not cached since then. */
  lemma {:induction false} LookupReplay<K, D>(ops: seq<Op<K, D>>, k: K)
    ensures Lookup(Replay(ops), k) == LastStored(ops, k)
    ensures k in Replay(ops) <==> exists i :: LastClearBefore(ops, i) && ops[i].Store? && ops[i].key == k
  {
    if |ops| > 0 {
      var init := ops[..|ops| - 1];
      LookupReplay(init, k);
      match ops[|ops| - 1]
      case Store(k', d) => {
        if k in Replay(init) {
          var i :| LastClearBefore(init, i) && init[i].Store? && init[i].key == k;
          assert LastClearBefore(ops, i);
        }
        if k' == k {
          assert LastClearBefore(ops, |ops| - 1);
        }
        forall i | LastClearBefore(ops, i) && ops[i].Store? && ops[i].key == k && k !in Replay(init)
          ensures k' == k
        {
          if i < |ops| - 1 {
            assert LastClearBefore(init, i);
          }
        }
      }
      case Clear => {
        forall i | LastClearBefore(ops, i) ensures !ops[i].Store? {
        }
      }
    }
  }

  /** `i` is a position of `ops` with no flush after it. */
  ghost predicate LastClearBefore<K, D>(ops: seq<Op<K, D>>, i: int) {
    0 <= i < |ops| && forall j :: i < j < |ops| ==> !ops[j].Clear?
  }

  /** A cache, identifiers of type `K`, pointers to data of type `D`. The
      ghost history records every `cache_data` and `flush` so far. */
  class Cache<K(==), D> {
    var data: map<K, Option<D>>
    ghost var history: seq<Op<K, D>>

    ghost predicate Valid()
      reads this
    {
      data == Replay(history)
    }

    /** The default constructor: an empty cache. */
    constructor()
      ensures Valid() && data == map[] && history == []
    {
      data := map[];
      history := [];
    }

    /** The copy constructor: the same identifiers bound to the same
        pointers (the data itself is shared, not copied). */
    constructor Copy(other: Cache<K, D>)
      requires other.Valid()
      ensures Valid() && data == other.data && history == other.history
    {
      data := other.data;
      history := other.history;
    }

    /** `get_data`: the data pointer last cached under `k` since the last flush,
        or the empty pointer. */
    method GetData(k: K) returns (d: Option<D>)
      requires Valid()
      ensures d == LastStored(history, k)
      ensures d.Some? ==> k in data && data[k] == d
    {
      LookupReplay(history, k);
      if k in data {
        d := data[k];
      } else {
        d := None;
      }
    }

    /** `cache_data`: binds `k` to `d`, replacing any earlier binding;
        every other identifier keeps its pointer. */
    method CacheData(k: K, d: Option<D>)
      requires Valid()
      modifies this
      ensures Valid() && history == old(history) + [Store(k, d)]
      ensures data == old(data)[k := d]
    {
      data := data[k := d];
      history := history + [Store(k, d)];
      assert history[..|history| - 1] == old(history);
    }

    /** `flush`: the cache is empty afterwards. */
    method Flush()
      requires Valid()
      modifies this
      ensures Valid() && history == old(history) + [Clear]
      ensures data == map[]
    {
      data := map[];
      history := history + [Clear];
    }
  }

  /** What the operations promise together: a pointer just cached is the one
      read back, caching under one identifier leaves every other lookup as
      it was, and after a flush every lookup is empty. */
  lemma CacheFacts<K, D>(ops: seq<Op<K, D>>, k: K, k': K, d: Option<D>)
    ensures LastStored(ops + [Store(k, d)], k) == d
    ensures k' != k ==> LastStored(ops + [Store(k, d)], k') == LastStored(ops, k')
    ensures LastStored(ops + [Clear], k') == None
  {
    assert (ops + [Store(k, d)])[..|ops|] == ops;
  }
}
