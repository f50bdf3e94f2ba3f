/** Facts about ordered lists (std::list / std::vector) shared by the tree,
    the message queue and the controller manager. */
module Lists {

  import opened Optional

  /** No element occurs twice. */
  ghost predicate NoDup<T>(s: seq<T>) {
    forall i, j :: 0 <= i < j < |s| ==> s[i] != s[j]
  }

  /** Erasing one position of a duplicate-free list leaves a duplicate-free
      list of old elements without the erased one. */
  lemma EraseAtNoDup<T>(s: seq<T>, at: int)
    requires NoDup(s) && 0 <= at < |s|
    ensures var rest := s[..at] + s[at + 1..];
      NoDup(rest) && s[at] !in rest &&
      forall i :: 0 <= i < |rest| ==> rest[i] == if i < at then s[i] else s[i + 1]
  {
    var rest := s[..at] + s[at + 1..];
    assert forall i :: 0 <= i < |rest| ==> rest[i] == if i < at then s[i] else s[i + 1];
  }

  /** What erasing every element that satisfies `p` leaves behind, in the
      original order (std::list::remove_if, or an erase-and-continue loop). */
  function RemoveWhere<T>(s: seq<T>, p: T -> bool): (r: seq<T>)
    ensures |r| <= |s|
    ensures forall i :: 0 <= i < |r| ==> r[i] in s && !p(r[i])
    ensures forall i :: 0 <= i < |s| && !p(s[i]) ==> s[i] in r
  {
    if s == [] then [] else RemoveWhere(s[..|s| - 1], p) + (if p(s[|s| - 1]) then [] else [s[|s| - 1]])
  }

  /** Removing distributes over concatenation: what is kept from a prefix comes
      before what is kept from the rest. */
  lemma {:induction false} RemoveWhereAppend<T>(a: seq<T>, b: seq<T>, p: T -> bool)
    ensures RemoveWhere(a + b, p) == RemoveWhere(a, p) + RemoveWhere(b, p)
    decreases |b|
  {
    if b == [] {
      assert a + b == a;
    } else {
      var b' := b[..|b| - 1];
      assert (a + b)[..|a + b| - 1] == a + b';
      assert (a + b)[|a + b| - 1] == b[|b| - 1];
      RemoveWhereAppend(a, b', p);
    }
  }

  /** The survivors keep their relative order: two kept elements appear in the
      same order in the original list. */
  lemma {:induction false} RemoveWhereKeepsOrder<T>(s: seq<T>, p: T -> bool, i: int, j: int)
    requires 0 <= i < j < |RemoveWhere(s, p)|
    ensures exists a, b :: 0 <= a < b < |s| && s[a] == RemoveWhere(s, p)[i] && s[b] == RemoveWhere(s, p)[j]
  {
    var s' := s[..|s| - 1];
    var r' := RemoveWhere(s', p);
    var r := RemoveWhere(s, p);
    if j < |r'| {
      RemoveWhereKeepsOrder(s', p, i, j);
      var a, b :| 0 <= a < b < |s'| && s'[a] == r'[i] && s'[b] == r'[j];
      assert s[a] == r[i] && s[b] == r[j];
    } else {
      assert r[j] == s[|s| - 1];
      assert r[i] == r'[i] && r'[i] in s';
      var a :| 0 <= a < |s'| && s'[a] == r'[i];
      assert s[a] == r[i];
    }
  }

  /** Removing elements from a list without duplicates leaves a list without
      duplicates. */
  lemma {:induction false} RemoveWhereNoDup<T>(s: seq<T>, p: T -> bool)
    requires NoDup(s)
    ensures NoDup(RemoveWhere(s, p))
  {
    if s != [] {
      var s' := s[..|s| - 1];
      assert NoDup(s');
      RemoveWhereNoDup(s', p);
      var x := s[|s| - 1];
      assert forall k :: 0 <= k < |s'| ==> s'[k] == s[k] != x;
    }
  }

  /** The first element of `s` that satisfies `p`, or None when there is none. */
  function First<T>(s: seq<T>, p: T -> bool): (r: Option<T>)
    ensures r.None? <==> forall i :: 0 <= i < |s| ==> !p(s[i])
    ensures r.Some? ==> exists i :: 0 <= i < |s| && s[i] == r.value && p(s[i]) && forall j :: 0 <= j < i ==> !p(s[j])
  {
    if s == [] then None
    else if p(s[0]) then Some(s[0])
    else
      var r := First(s[1..], p);
      assert forall j :: 0 < j < |s| ==> s[j] == s[1..][j - 1];
      r
  }

  /** Searching a concatenation finds the first part's match, if it has one. */
  lemma {:induction false} FirstAppend<T>(a: seq<T>, b: seq<T>, p: T -> bool)
    ensures First(a + b, p) == if First(a, p).Some? then First(a, p) else First(b, p)
  {
    if a != [] {
      assert (a + b)[1..] == a[1..] + b;
      FirstAppend(a[1..], b, p);
    } else {
      assert a + b == b;
    }
  }

  /** Linear search from the front (std::find): the index of the first
      occurrence of `x`, or `|s|` (the end iterator) when there is none. */
  method Find<T(==)>(s: seq<T>, x: T) returns (i: nat)
    ensures i <= |s|
    ensures i < |s| ==> s[i] == x
    ensures forall j :: 0 <= j < i ==> s[j] != x
    ensures i == |s| <==> x !in s
  {
    i := 0;
    while i < |s| && s[i] != x
      invariant i <= |s|
      invariant forall j :: 0 <= j < i ==> s[j] != x
    {
      i := i + 1;
    }
  }

  /** Filtering a prefix of a duplicate-free list and keeping the rest gives a
      duplicate-free list: the state of an erase-and-continue loop. */
  lemma RemoveWherePrefixNoDup<T>(s: seq<T>, j: int, p: T -> bool)
    requires NoDup(s) && 0 <= j <= |s|
    ensures NoDup(RemoveWhere(s[..j], p) + s[j..])
  {
    var a := RemoveWhere(s[..j], p);
    var b := s[j..];
    assert NoDup(s[..j]);
    RemoveWhereNoDup(s[..j], p);
    forall u, v | 0 <= u < |a| && 0 <= v < |b| ensures a[u] != b[v] {
      assert a[u] in s[..j];
      var w :| 0 <= w < j && s[w] == a[u];
      assert b[v] == s[j + v];
    }
    var c := a + b;
    forall u, v | 0 <= u < v < |c| ensures c[u] != c[v] {
      if v < |a| {
        assert c[u] == a[u] && c[v] == a[v];
      } else if u >= |a| {
        assert c[u] == b[u - |a|] && c[v] == b[v - |a|];
        assert b[u - |a|] == s[j + u - |a|] && b[v - |a|] == s[j + v - |a|];
      } else {
        assert c[u] == a[u] && c[v] == b[v - |a|];
      }
    }
  }

  /** Concatenation is associative; stated on its own so that a proof can
      regroup a long concatenation without the solver searching for it. */
  lemma AppendAssoc<T>(a: seq<T>, b: seq<T>, c: seq<T>)
    ensures a + (b + c) == a + b + c
  {
  }
}
