/** The object manager of object/object_manager.h and object_manager.cpp: a
    `std::set` of shared pointers to objects that are updated together once
    per step. An object is an opaque identity here (an `int`); the order of
    these identities stands for the order boost gives shared pointers, which
    compares their owners (control blocks), not their addresses. `None` is
    the null pointer, or a weak pointer whose object is gone. */
module Objects {
  import opened Optional

  /** `s` is strictly increasing: the iteration order of a `std::set`, each
      element once. */
  ghost predicate Increasing(s: seq<int>) {
    forall i, j :: 0 <= i < j < |s| ==> s[i] < s[j]
  }

  /** The elements of `s`. */
  ghost function Members(s: seq<int>): set<int> {
    set x | x in s
  }

  /** `std::set::insert`: `x` joins the set in its place in the order, and
      nothing happens when it is already there. */
  function Insert(s: seq<int>, x: int): (r: seq<int>)
    requires Increasing(s)
    ensures Increasing(r) && Members(r) == Members(s) + {x}
    ensures x in s ==> r == s
    ensures x !in s ==> |r| == |s| + 1
  {
    if |s| == 0 || x < s[0] then
      Front(x, s);
      [x] + s
    else if x == s[0] then s
    else
      var t := Insert(s[1..], x);
      Behind(s, x, t);
      assert x in s ==> x in s[1..];
      [s[0]] + t
  }

  /** An element below the head of an increasing sequence goes in front. */
  lemma Front(x: int, s: seq<int>)
    requires Increasing(s) && (|s| == 0 || x < s[0])
    ensures Increasing([x] + s) && Members([x] + s) == Members(s) + {x} && x !in s
  {
    Cons(x, s);
  }

  /** An element above the head of an increasing sequence goes behind it:
      inserting it in the tail and putting the head back in front gives an
      increasing sequence of the old elements and the new one. */
  lemma Behind(s: seq<int>, x: int, t: seq<int>)
    requires Increasing(s) && |s| > 0 && s[0] < x
    requires Increasing(t) && Members(t) == Members(s[1..]) + {x}
    ensures Increasing([s[0]] + t) && Members([s[0]] + t) == Members(s) + {x}
  {
    Cons(s[0], s[1..]);
    assert s == [s[0]] + s[1..];
    forall y | y in t ensures s[0] < y {
      assert y in Members(t);
      if y != x {
        var k :| 0 <= k < |s[1..]| && s[1..][k] == y;
        assert s[k + 1] == y;
      }
    }
    Cons(s[0], t);
  }

  /** `std::set::erase` of an element: `x` leaves the set, the others keep
      their order; nothing happens when `x` is not there. */
  function Erase(s: seq<int>, x: int): (r: seq<int>)
    ensures x !in s ==> r == s
    ensures forall y :: y in r ==> y in s
    ensures Increasing(s) ==> Increasing(r) && Members(r) == Members(s) - {x}
    ensures Increasing(s) && x in s ==> |r| == |s| - 1
  {
    if |s| == 0 then []
    else if s[0] == x then
      Cons(s[0], s[1..]);
      assert s == [s[0]] + s[1..];
      s[1..]
    else
      var t := Erase(s[1..], x);
      Keep(s, x, t);
      [s[0]] + t
  }

  /** Keeping the head of `s` in front of what erasing `x` from its tail
      left behind erases `x` from `s`. */
  lemma Keep(s: seq<int>, x: int, t: seq<int>)
    requires |s| > 0 && s[0] != x && forall y :: y in t ==> y in s[1..]
    requires x !in s[1..] ==> t == s[1..]
    requires Increasing(s[1..]) ==> Increasing(t) && Members(t) == Members(s[1..]) - {x}
    requires Increasing(s[1..]) && x in s[1..] ==> |t| == |s| - 2
    ensures x !in s ==> [s[0]] + t == s
    ensures forall y :: y in [s[0]] + t ==> y in s
    ensures Increasing(s) ==> Increasing([s[0]] + t) && Members([s[0]] + t) == Members(s) - {x}
    ensures Increasing(s) && x in s ==> |[s[0]] + t| == |s| - 1
  {
    Cons(s[0], s[1..]);
    assert s == [s[0]] + s[1..];
    Cons(s[0], t);
    if Increasing(s) {
      forall y | y in t ensures s[0] < y {
        var k :| 0 <= k < |s[1..]| && s[1..][k] == y;
        assert s[k + 1] == y;
      }
    }
  }

  /** An element in front of a sequence: it is increasing when the rest is
      and the new element is smaller than every element of the rest. */
  lemma Cons(a: int, t: seq<int>)
    ensures Members([a] + t) == {a} + Members(t)
    ensures Increasing([a] + t) <==> Increasing(t) && forall y :: y in t ==> a < y
  {
    var s := [a] + t;
    assert s[0] == a;
    assert forall i :: 0 < i < |s| ==> s[i] == t[i - 1];
    if Increasing(s) {
      forall y | y in t ensures a < y {
        var k :| 0 <= k < |t| && t[k] == y;
        assert s[k + 1] == y;
      }
      forall i, j | 0 <= i < j < |t| ensures t[i] < t[j] {
        assert s[i + 1] == t[i] && s[j + 1] == t[j];
      }
    }
    if Increasing(t) && forall y :: y in t ==> a < y {
      forall i, j | 0 <= i < j < |s| ensures s[i] < s[j] {
        assert s[j] == t[j - 1] && t[j - 1] in t;
        if i > 0 {
          assert s[i] == t[i - 1];
        }
      }
    }
  }

  /** Erasing at the first position that holds `x` is erasing `x`. */
  lemma {:induction false} EraseAt(s: seq<int>, x: int, i: int)
    requires 0 <= i < |s| && s[i] == x
    requires forall j :: 0 <= j < i ==> s[j] != x
    ensures Erase(s, x) == s[..i] + s[i + 1..]
  {
    if i == 0 {
      assert s[..0] + s[1..] == s[1..];
    } else {
      var t := s[1..];
      EraseAt(t, x, i - 1);
      assert Erase(s, x) == [s[0]] + Erase(t, x);
      assert t[..i - 1] == s[1..i] && t[i..] == s[i + 1..];
      assert s[..i] == [s[0]] + s[1..i];
    }
  }

  /** A set's size is its number of elements. */
  lemma {:induction false} SizeIsCount(s: seq<int>)
    requires Increasing(s)
    ensures |Members(s)| == |s|
  {
    if |s| > 0 {
      SizeIsCount(s[1..]);
      assert s == [s[0]] + s[1..];
      assert Members(s) == {s[0]} + Members(s[1..]);
      assert s[0] !in Members(s[1..]);
    }
  }

  /** The object manager. */
  class Manager {
    var objects: seq<int>

    ghost predicate Valid()
      reads this
    {
      Increasing(objects)
    }

    /** A manager with no objects. */
    constructor()
      ensures Valid() && objects == []
    {
      objects := [];
    }

    /** The weak pointer `w` still leads to a managed object. */
    predicate Resolves(w: Option<int>)
      reads this
    {
      w.Some? && w.value in objects
    }

    /** `add_object`: a null pointer or an object already managed is not
        added and gives an empty weak pointer; any other object is inserted,
        the size grows by one, and a weak pointer to it is returned. */
    method AddObject(o: Option<int>) returns (w: Option<int>)
      requires Valid()
      modifies this
      ensures Valid()
      ensures o.None? ==> w.None? && objects == old(objects)
      ensures o.Some? && o.value in old(objects) ==> w.None? && objects == old(objects)
      ensures o.Some? && o.value !in old(objects) ==> w == o && Resolves(w)
      ensures o.Some? && o.value !in old(objects) ==> objects == Insert(old(objects), o.value)
      ensures o.Some? && o.value !in old(objects) ==> |objects| == |old(objects)| + 1
    {
      if o.None? {
        return None;
      }
      if o.value in objects {
        return None;
      }
      objects := Insert(objects, o.value);
      w := o;
    }

    /** `remove_object(weak_ptr&)`: the object the weak pointer leads to is
        erased; an expired weak pointer or an object not managed changes
        nothing. Afterwards the weak pointer no longer resolves. */
    method RemoveObject(w: Option<int>)
      requires Valid()
      modifies this
      ensures Valid() && !Resolves(w)
      ensures w.None? ==> objects == old(objects)
      ensures w.Some? ==> objects == Erase(old(objects), w.value)
    {
      if w.Some? && w.value in objects {
        objects := Erase(objects, w.value);
      }
    }

    /** `remove_object(abstract_interface*)`: walks the set in order and
        erases the first object whose pointer is `p`, then stops; nothing
        changes when there is none (in particular for the null pointer). */
    method RemoveRaw(p: Option<int>)
      requires Valid()
      modifies this
      ensures Valid()
      ensures p.None? ==> objects == old(objects)
      ensures p.Some? ==> objects == Erase(old(objects), p.value)
    {
      var i := 0;
      while i < |objects|
        invariant 0 <= i <= |objects| && objects == old(objects)
        invariant forall j :: 0 <= j < i ==> Some(objects[j]) != p
      {
        if Some(objects[i]) == p {
          EraseAt(objects, p.value, i);
          objects := objects[..i] + objects[i + 1..];
          return;
        }
        i := i + 1;
      }
    }

    /** `size`: the number of managed objects. */
    method Size() returns (n: nat)
      requires Valid()
      ensures n == |Members(objects)|
    {
      SizeIsCount(objects);
      n := |objects|;
    }

    /** `step`: every managed object is updated, once each, in the order of
        the set; `updated` lists the objects in the order their `update`
        runs. What `update` does is the object's own affair. */
    method Step() returns (updated: seq<int>)
      requires Valid()
      ensures Members(updated) == Members(objects)
      ensures Increasing(updated) && |updated| == |Members(objects)|
    {
      updated := [];
      var i := 0;
      while i < |objects|
        invariant 0 <= i <= |objects| && updated == objects[..i]
      {
        updated := updated + [objects[i]];
        i := i + 1;
      }
      assert updated == objects;
      SizeIsCount(objects);
    }
  }
}
