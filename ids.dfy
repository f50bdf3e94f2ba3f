/** Identifiers handed out by a process-wide counter (`id_type` in
    elements/id.h). Every construction, copy construction and assignment
    takes the counter's current value and then increments it; the counter is
    an `unsigned long`, modelled here as 64 bits wide (the LP64 data model), so
    it wraps. */
module Ids {

  /** 2^64: the `unsigned long` counter counts modulo this. */
  const Modulus: int := 0x1_0000_0000_0000_0000

  /** An identifier value; compared only through its stored value. */
  datatype IdType = IdType(value: int)

  /** The `n` values a counter starting at `start` hands out first. */
  function Run(start: int, n: nat): (s: seq<int>)
    requires 0 <= start < Modulus
    ensures |s| == n
  {
    if n == 0 then [] else Run(start, n - 1) + [(start + n - 1) % Modulus]
  }

  /** The `i`-th value handed out is the start advanced `i` times, modulo
      2^64. */
  lemma {:induction false} RunAt(start: int, n: nat)
    requires 0 <= start < Modulus
    ensures forall i :: 0 <= i < n ==> Run(start, n)[i] == (start + i) % Modulus
  {
    if n > 0 {
      RunAt(start, n - 1);
      assert forall i :: 0 <= i < n - 1 ==> Run(start, n)[i] == Run(start, n - 1)[i];
    }
  }

  /** Advancing the counter by one wraps from 2^64 - 1 to 0. */
  lemma Advance(start: int, n: nat, previous: int)
    requires 0 <= start < Modulus && previous == (start + n) % Modulus
    ensures (start + n + 1) % Modulus == if previous + 1 == Modulus then 0 else previous + 1
    ensures Run(start, n + 1) == Run(start, n) + [previous]
  {
    var q := (start + n) / Modulus;
    assert start + n + 1 == q * Modulus + previous + 1;
    if previous + 1 == Modulus {
      assert start + n + 1 == (q + 1) * Modulus;
    }
  }

  /** `operator <`. */
  predicate Less(a: IdType, b: IdType) {
    a.value < b.value
  }

  /** `operator ==` between two identifiers. */
  predicate Equal(a: IdType, b: IdType) {
    a.value == b.value
  }

  /** `operator !=`. */
  predicate NotEqual(a: IdType, b: IdType) {
    a.value != b.value
  }

  /** Up to 2^64 draws, no value is handed out twice, wrap-around or not. */
  lemma {:induction false} RunDistinct(start: int, n: nat)
    requires 0 <= start < Modulus && n <= Modulus
    ensures forall i, j :: 0 <= i < j < n ==> Run(start, n)[i] != Run(start, n)[j]
  {
    var s := Run(start, n);
    RunAt(start, n);
    forall i, j | 0 <= i < j < n ensures s[i] != s[j] {
      if start + j < Modulus {
        assert s[j] == start + j;
        assert s[i] == start + i;
      } else if start + i >= Modulus {
        assert s[j] == start + j - Modulus;
        assert s[i] == start + i - Modulus;
      } else {
        assert s[i] == start + i;
        assert s[j] == start + j - Modulus;
      }
    }
  }

  /** Before the counter wraps, the values handed out are strictly increasing. */
  lemma RunIncreasing(start: int, n: nat)
    requires 0 <= start < Modulus && start + n <= Modulus
    ensures forall i, j :: 0 <= i < j < n ==> Run(start, n)[i] < Run(start, n)[j]
  {
    var s := Run(start, n);
    RunAt(start, n);
    forall i, j | 0 <= i < j < n ensures s[i] < s[j] {
      assert s[i] == start + i && s[j] == start + j;
    }
  }

  /** The static counter `previous_id` and the identifiers drawn from it.
      `start` is the counter's initial value (its definition is not part of
      this model) and `issued` lists every value handed out so far. */
  class IdGenerator {
    var previous: int
    ghost const start: int
    ghost var issued: seq<int>

    ghost predicate Valid()
      reads this
    {
      0 <= start < Modulus && 0 <= previous < Modulus &&
      issued == Run(start, |issued|) && previous == (start + |issued|) % Modulus
    }

    constructor(initial: int)
      requires 0 <= initial < Modulus
      ensures Valid() && previous == initial && issued == []
    {
      previous := initial;
      start := initial;
      issued := [];
    }

    /** `create_id`: take the counter's value, then increment it (modulo 2^64). */
    method CreateId() returns (id: IdType)
      requires Valid()
      modifies this
      ensures Valid()
      ensures id.value == old(previous) && previous == (old(previous) + 1) % Modulus
      ensures issued == old(issued) + [id.value]
    {
      id := IdType(previous);
      Advance(start, |issued|, previous);
      issued := issued + [previous];
      previous := if previous + 1 == Modulus then 0 else previous + 1;
    }

    /** The `id_type` constructor. */
    method Construct() returns (id: IdType)
      requires Valid()
      modifies this
      ensures Valid() && id.value == old(previous) && issued == old(issued) + [id.value]
    {
      id := CreateId();
    }

    /** The copy constructor: the copy gets a fresh value; `other` is ignored. */
    method Copy(other: IdType) returns (id: IdType)
      requires Valid()
      modifies this
      ensures Valid() && id.value == old(previous) && issued == old(issued) + [id.value]
      ensures |old(issued)| < Modulus && other.value in old(issued) ==> id != other
    {
      id := CreateId();
      Fresh(old(issued), other.value);
    }

    /** Assignment: the left-hand side gets a fresh value; `rhs` is ignored. */
    method Assign(rhs: IdType) returns (lhs: IdType)
      requires Valid()
      modifies this
      ensures Valid() && lhs.value == old(previous) && issued == old(issued) + [lhs.value]
      ensures |old(issued)| < Modulus && rhs.value in old(issued) ==> lhs != rhs
    {
      lhs := CreateId();
      Fresh(old(issued), rhs.value);
    }

    /** The value about to be drawn differs from every value in `before`,
        the values drawn before it, while fewer than 2^64 were drawn. */
    lemma Fresh(before: seq<int>, v: int)
      requires Valid() && |issued| >= 1 && before == issued[..|issued| - 1]
      ensures |before| < Modulus && v in before ==> v != issued[|issued| - 1]
    {
      if |before| < Modulus && v in before {
        var i :| 0 <= i < |before| && before[i] == v;
        RunDistinct(start, |issued|);
      }
    }
  }

  /** A generator hands out the values of its run in order: after `n` more
      draws it has issued the first `|issued| + n` values of the run. */
  lemma IssuedAreRun(g: IdGenerator)
    requires g.Valid()
    ensures forall i :: 0 <= i < |g.issued| ==> g.issued[i] == (g.start + i) % Modulus
    ensures |g.issued| <= Modulus ==> forall i, j :: 0 <= i < j < |g.issued| ==> g.issued[i] != g.issued[j]
    ensures g.start + |g.issued| <= Modulus ==> forall i, j :: 0 <= i < j < |g.issued| ==> g.issued[i] < g.issued[j]
  {
    RunAt(g.start, |g.issued|);
    if |g.issued| <= Modulus {
      RunDistinct(g.start, |g.issued|);
    }
    if g.start + |g.issued| <= Modulus {
      RunIncreasing(g.start, |g.issued|);
    }
  }

  /** Identifiers drawn from one counter compare in the order they were
      drawn: two of them are `==` exactly when they are the same draw and
      `!=` otherwise, while at most 2^64 values have been drawn, and an
      earlier one is `<` a later one while the counter has not wrapped. */
  lemma IssuedCompare(g: IdGenerator, i: int, j: int)
    requires g.Valid() && 0 <= i < |g.issued| && 0 <= j < |g.issued|
    ensures |g.issued| <= Modulus ==> (Equal(IdType(g.issued[i]), IdType(g.issued[j])) <==> i == j)
    ensures |g.issued| <= Modulus ==> (NotEqual(IdType(g.issued[i]), IdType(g.issued[j])) <==> i != j)
    ensures g.start + |g.issued| <= Modulus ==> (Less(IdType(g.issued[i]), IdType(g.issued[j])) <==> i < j)
  {
    IssuedAreRun(g);
  }
}
