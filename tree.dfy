/** The ownership tree every controller is a node of (elements/tree.h).

    Nodes live in an arena and are named by integer handles. `Kids` maps each
    node to its ordered child list (the std::list of shared pointers). A ghost
    `Rank` strictly decreases from a parent to each of its children: it is the
    model's witness that the structure is acyclic, which the recursive
    traversals of the source silently rely on. */
module Tree {

  import opened Optional
  import opened Lists

  type Kids = map<int, seq<int>>
  type Rank = map<int, nat>

  /** Every child is a node and ranks strictly below its parent. */
  ghost predicate Ranked(k: Kids, r: Rank) {
    k.Keys <= r.Keys &&
    forall x, i :: x in k && 0 <= i < |k[x]| ==> k[x][i] in k && r[k[x][i]] < r[x]
  }

  /** Every element of `cs` is a node ranked below `bound`. */
  ghost predicate Below(k: Kids, r: Rank, cs: seq<int>, bound: nat) {
    forall i :: 0 <= i < |cs| ==> cs[i] in k && cs[i] in r && r[cs[i]] < bound
  }

  /** The pre-order listing of the subtree at `n`: the node, then the
      listings of its children in list order. */
  ghost function Preorder(k: Kids, r: Rank, n: int): (s: seq<int>)
    requires Ranked(k, r) && n in k
    ensures |s| > 0 && s[0] == n
    ensures forall i :: 0 <= i < |s| ==> s[i] in k && r[s[i]] <= r[n]
    decreases r[n], 1, 0
  {
    [n] + PreorderOf(k, r, k[n], r[n])
  }

  /** The pre-order listings of the subtrees at `cs`, one after the other. */
  ghost function PreorderOf(k: Kids, r: Rank, cs: seq<int>, bound: nat): (s: seq<int>)
    requires Ranked(k, r) && Below(k, r, cs, bound)
    ensures forall i :: 0 <= i < |s| ==> s[i] in k && r[s[i]] < bound
    decreases bound, 0, |cs|
  {
    if cs == [] then []
    else PreorderOf(k, r, cs[..|cs| - 1], bound) + Preorder(k, r, cs[|cs| - 1])
  }

  /** The nodes `transverse_depth_first` hands to the visitor `v`, in order: a
      node is visited, and its children are walked only when `v` returns true
      for it. */
  ghost function Visits(k: Kids, r: Rank, n: int, v: int -> bool): (s: seq<int>)
    requires Ranked(k, r) && n in k
    ensures |s| > 0 && s[0] == n
    ensures forall i :: 0 <= i < |s| ==> s[i] in k && r[s[i]] <= r[n]
    decreases r[n], 1, 0
  {
    [n] + if v(n) then VisitsOf(k, r, k[n], r[n], v) else []
  }

  /** The visits of the subtrees at `cs`, one after the other. */
  ghost function VisitsOf(k: Kids, r: Rank, cs: seq<int>, bound: nat, v: int -> bool): (s: seq<int>)
    requires Ranked(k, r) && Below(k, r, cs, bound)
    ensures forall i :: 0 <= i < |s| ==> s[i] in k && r[s[i]] < bound
    decreases bound, 0, |cs|
  {
    if cs == [] then []
    else VisitsOf(k, r, cs[..|cs| - 1], bound, v) + Visits(k, r, cs[|cs| - 1], v)
  }

  /** The child lists after `remove_if(n, p)`: every node that survives (the
      start node, or a visited node that does not satisfy `p`) has the
      children satisfying `p` erased; every other list is untouched. */
  ghost function Pruned(k: Kids, r: Rank, n: int, p: int -> bool): (k': Kids)
    requires Ranked(k, r) && n in k
    ensures k'.Keys == k.Keys
  {
    map x | x in k :: if Survives(k, r, n, p, x) then RemoveWhere(k[x], p) else k[x]
  }

  /** The nodes `remove_if(n, p)` hands to `p`, in order: the children of `n`
      and, below each child that `p` rejects, its own walk. */
  ghost function Tested(k: Kids, r: Rank, n: int, p: int -> bool): seq<int>
    requires Ranked(k, r) && n in k
  {
    VisitsOf(k, r, k[n], r[n], Not(p))
  }

  /** `x` is the start of `remove_if(n, p)` or a tested node that is kept. */
  ghost predicate Survives(k: Kids, r: Rank, n: int, p: int -> bool, x: int)
    requires Ranked(k, r) && n in k
  {
    x == n || (x in Tested(k, r, n, p) && !p(x))
  }

  /** The negation of a predicate. */
  function Not(p: int -> bool): (q: int -> bool)
    ensures forall x :: q(x) == !p(x)
  {
    x => !p(x)
  }

  /** Listing a concatenation of sibling lists concatenates their listings. */
  lemma {:induction false} PreorderOfAppend(k: Kids, r: Rank, a: seq<int>, b: seq<int>, bound: nat)
    requires Ranked(k, r) && Below(k, r, a, bound) && Below(k, r, b, bound)
    ensures Below(k, r, a + b, bound)
    ensures PreorderOf(k, r, a + b, bound) == PreorderOf(k, r, a, bound) + PreorderOf(k, r, b, bound)
    decreases |b|
  {
    if b == [] {
      assert a + b == a;
    } else {
      var b' := b[..|b| - 1];
      assert (a + b)[..|a + b| - 1] == a + b';
      PreorderOfAppend(k, r, a, b', bound);
    }
  }

  /** Walking a concatenation of sibling lists concatenates their visits. */
  lemma {:induction false} VisitsOfAppend(k: Kids, r: Rank, a: seq<int>, b: seq<int>, bound: nat, v: int -> bool)
    requires Ranked(k, r) && Below(k, r, a, bound) && Below(k, r, b, bound)
    ensures Below(k, r, a + b, bound)
    ensures VisitsOf(k, r, a + b, bound, v) == VisitsOf(k, r, a, bound, v) + VisitsOf(k, r, b, bound, v)
    decreases |b|
  {
    if b == [] {
      assert a + b == a;
    } else {
      var b' := b[..|b| - 1];
      assert (a + b)[..|a + b| - 1] == a + b';
      VisitsOfAppend(k, r, a, b', bound, v);
    }
  }

  /** A node is in the listing of siblings `cs` exactly when it is in the
      subtree of one of them. */
  lemma {:induction false} PreorderOfMember(k: Kids, r: Rank, cs: seq<int>, bound: nat, x: int)
    requires Ranked(k, r) && Below(k, r, cs, bound)
    ensures x in PreorderOf(k, r, cs, bound) <==> exists i :: 0 <= i < |cs| && x in Preorder(k, r, cs[i])
    decreases |cs|
  {
    if cs != [] {
      var cs' := cs[..|cs| - 1];
      PreorderOfMember(k, r, cs', bound, x);
      if x in PreorderOf(k, r, cs, bound) {
        if x !in Preorder(k, r, cs[|cs| - 1]) {
          var i :| 0 <= i < |cs'| && x in Preorder(k, r, cs'[i]);
          assert cs[i] == cs'[i];
        }
      } else {
        forall i | 0 <= i < |cs| ensures x !in Preorder(k, r, cs[i]) {
          if i < |cs'| {
            assert cs[i] == cs'[i];
          }
        }
      }
    }
  }

  /** A node is among the visits of siblings `cs` exactly when it is among
      the visits of one of them. */
  lemma {:induction false} VisitsOfMember(k: Kids, r: Rank, cs: seq<int>, bound: nat, v: int -> bool, x: int)
    requires Ranked(k, r) && Below(k, r, cs, bound)
    ensures x in VisitsOf(k, r, cs, bound, v) <==> exists i :: 0 <= i < |cs| && x in Visits(k, r, cs[i], v)
    decreases |cs|
  {
    if cs != [] {
      var cs' := cs[..|cs| - 1];
      VisitsOfMember(k, r, cs', bound, v, x);
      if x in VisitsOf(k, r, cs, bound, v) {
        if x !in Visits(k, r, cs[|cs| - 1], v) {
          var i :| 0 <= i < |cs'| && x in Visits(k, r, cs'[i], v);
          assert cs[i] == cs'[i];
        }
      } else {
        forall i | 0 <= i < |cs| ensures x !in Visits(k, r, cs[i], v) {
          if i < |cs'| {
            assert cs[i] == cs'[i];
          }
        }
      }
    }
  }

  /** A visitor that always returns true visits the whole subtree in pre-order. */
  lemma {:induction false} VisitsAllTrue(k: Kids, r: Rank, n: int, v: int -> bool)
    requires Ranked(k, r) && n in k
    requires forall x :: v(x)
    ensures Visits(k, r, n, v) == Preorder(k, r, n)
    decreases r[n], 1, 0
  {
    VisitsOfAllTrue(k, r, k[n], r[n], v);
  }

  lemma {:induction false} VisitsOfAllTrue(k: Kids, r: Rank, cs: seq<int>, bound: nat, v: int -> bool)
    requires Ranked(k, r) && Below(k, r, cs, bound)
    requires forall x :: v(x)
    ensures VisitsOf(k, r, cs, bound, v) == PreorderOf(k, r, cs, bound)
    decreases bound, 0, |cs|
  {
    if cs != [] {
      VisitsOfAllTrue(k, r, cs[..|cs| - 1], bound, v);
      VisitsAllTrue(k, r, cs[|cs| - 1], v);
    }
  }

  /** The children of a visited node for which the visitor returned true are
      visited too; this is what lets later siblings be visited even when an
      earlier sibling stops its own descent. */
  lemma {:induction false} VisitsChildOfProceeding(k: Kids, r: Rank, n: int, v: int -> bool, y: int, x: int)
    requires Ranked(k, r) && n in k
    requires y in Visits(k, r, n, v) && v(y) && y in k && x in k[y]
    ensures x in Visits(k, r, n, v)
    decreases r[n]
  {
    assert v(n);
    var i :| 0 <= i < |k[y]| && k[y][i] == x;
    if y == n {
      VisitsOfMember(k, r, k[n], r[n], v, x);
      assert x in Visits(k, r, k[n][i], v);
    } else {
      VisitsOfMember(k, r, k[n], r[n], v, y);
      var c :| 0 <= c < |k[n]| && y in Visits(k, r, k[n][c], v);
      VisitsChildOfProceeding(k, r, k[n][c], v, y, x);
      VisitsOfMember(k, r, k[n], r[n], v, x);
    }
  }

  /** Every visited node other than the start is a child of an earlier
      visited node for which the visitor returned true. */
  lemma {:induction false} VisitsParentProceeds(k: Kids, r: Rank, n: int, v: int -> bool, x: int)
    requires Ranked(k, r) && n in k
    requires x in Visits(k, r, n, v) && x != n
    ensures exists y :: y in Visits(k, r, n, v) && v(y) && y in k && x in k[y]
    decreases r[n]
  {
    assert v(n) && Visits(k, r, n, v) == [n] + VisitsOf(k, r, k[n], r[n], v);
    VisitsOfMember(k, r, k[n], r[n], v, x);
    var i :| 0 <= i < |k[n]| && x in Visits(k, r, k[n][i], v);
    var c := k[n][i];
    if x != c {
      VisitsParentProceeds(k, r, c, v, x);
      var y :| y in Visits(k, r, c, v) && v(y) && y in k && x in k[y];
      VisitsOfMember(k, r, k[n], r[n], v, y);
      assert y in Visits(k, r, n, v);
    } else {
      assert n in Visits(k, r, n, v) && x in k[n];
    }
  }

  /** What `transverse_depth_first` visits: the start node, and exactly the
      children of visited nodes whose visitor returned true. A false return
      hides only that node's own descendants. */
  lemma VisitsMember(k: Kids, r: Rank, n: int, v: int -> bool, x: int)
    requires Ranked(k, r) && n in k
    ensures x in Visits(k, r, n, v) <==>
      x == n || exists y :: y in Visits(k, r, n, v) && v(y) && y in k && x in k[y]
  {
    if x in Visits(k, r, n, v) && x != n {
      VisitsParentProceeds(k, r, n, v, x);
    }
    if exists y :: y in Visits(k, r, n, v) && v(y) && y in k && x in k[y] {
      var y :| y in Visits(k, r, n, v) && v(y) && y in k && x in k[y];
      VisitsChildOfProceeding(k, r, n, v, y, x);
    }
  }

  /** Two child maps that agree on every node of the subtree at `n`. */
  ghost predicate AgreeOn(k1: Kids, k2: Kids, s: seq<int>) {
    forall i :: 0 <= i < |s| ==> s[i] in k1 && s[i] in k2 && k1[s[i]] == k2[s[i]]
  }

  /** A walk reads only the child lists of the subtree it walks. */
  lemma {:induction false} VisitsFrame(k1: Kids, k2: Kids, r: Rank, n: int, v: int -> bool)
    requires Ranked(k1, r) && Ranked(k2, r) && n in k1 && n in k2
    requires AgreeOn(k1, k2, Preorder(k1, r, n))
    ensures Visits(k1, r, n, v) == Visits(k2, r, n, v)
    decreases r[n], 1, 0
  {
    var s := Preorder(k1, r, n);
    assert s[0] == n;
    var cs := k1[n];
    assert AgreeOn(k1, k2, PreorderOf(k1, r, cs, r[n])) by {
      forall i | 0 <= i < |PreorderOf(k1, r, cs, r[n])|
        ensures s[i + 1] == PreorderOf(k1, r, cs, r[n])[i]
      {
      }
    }
    VisitsOfFrame(k1, k2, r, cs, r[n], v);
  }

  lemma {:induction false} VisitsOfFrame(k1: Kids, k2: Kids, r: Rank, cs: seq<int>, bound: nat, v: int -> bool)
    requires Ranked(k1, r) && Ranked(k2, r) && Below(k1, r, cs, bound) && Below(k2, r, cs, bound)
    requires AgreeOn(k1, k2, PreorderOf(k1, r, cs, bound))
    ensures VisitsOf(k1, r, cs, bound, v) == VisitsOf(k2, r, cs, bound, v)
    decreases bound, 0, |cs|
  {
    if cs != [] {
      var cs' := cs[..|cs| - 1];
      var a := PreorderOf(k1, r, cs', bound);
      var b := Preorder(k1, r, cs[|cs| - 1]);
      assert AgreeOn(k1, k2, a) by {
        forall i | 0 <= i < |a| ensures a[i] == (a + b)[i] { }
      }
      assert AgreeOn(k1, k2, b) by {
        forall i | 0 <= i < |b| ensures b[i] == (a + b)[|a| + i] { }
      }
      VisitsOfFrame(k1, k2, r, cs', bound, v);
      VisitsFrame(k1, k2, r, cs[|cs| - 1], v);
    }
  }

  /** Every child points back at the node whose list holds it. */
  ghost predicate Consistent(k: Kids, parent: map<int, int>) {
    forall x, i :: x in k && 0 <= i < |k[x]| ==> k[x][i] in parent && parent[k[x][i]] == x
  }

  /** Below the top of a subtree, every node's parent is in the same subtree. */
  lemma {:induction false} ParentInSubtree(k: Kids, r: Rank, parent: map<int, int>, a: int, x: int)
    requires Ranked(k, r) && Consistent(k, parent) && a in k
    requires x in Preorder(k, r, a) && x != a
    ensures x in parent && parent[x] in k && x in k[parent[x]] && parent[x] in Preorder(k, r, a)
    decreases r[a]
  {
    PreorderOfMember(k, r, k[a], r[a], x);
    var i :| 0 <= i < |k[a]| && x in Preorder(k, r, k[a][i]);
    var c := k[a][i];
    if x != c {
      ParentInSubtree(k, r, parent, c, x);
      PreorderOfMember(k, r, k[a], r[a], parent[x]);
    }
  }

  /** The subtrees of two different children of one node share no node. */
  lemma {:induction false} SubtreesDisjoint(k: Kids, r: Rank, parent: map<int, int>, n: int, a: int, b: int, x: int)
    requires Ranked(k, r) && Consistent(k, parent) && n in k
    requires a in k[n] && b in k[n] && a != b
    requires x in Preorder(k, r, a)
    ensures x !in Preorder(k, r, b)
    decreases r[n] - r[x]
  {
    if x in Preorder(k, r, b) {
      if x == a {
        ParentInSubtree(k, r, parent, b, a);
        assert false;
      } else if x == b {
        ParentInSubtree(k, r, parent, a, b);
        assert false;
      } else {
        ParentInSubtree(k, r, parent, a, x);
        ParentInSubtree(k, r, parent, b, x);
        SubtreesDisjoint(k, r, parent, n, a, b, parent[x]);
        assert false;
      }
    }
  }

  /** Below a visited node whose visitor returned false nothing is visited:
      every node has a single parent, so no other path leads there. */
  lemma {:induction false} VisitsSkipBelow(k: Kids, r: Rank, parent: map<int, int>, n: int, v: int -> bool, y: int, x: int)
    requires Ranked(k, r) && Consistent(k, parent) && n in k
    requires y in Visits(k, r, n, v) && !v(y)
    requires x in Preorder(k, r, y) && x != y
    ensures x !in Visits(k, r, n, v)
    decreases r[y] - r[x]
  {
    ParentInSubtree(k, r, parent, y, x);
    var z := parent[x];
    if x in Visits(k, r, n, v) {
      VisitsInPreorder(k, r, n, v, y);
      assert r[x] < r[z] <= r[y] <= r[n];
      VisitsParentProceeds(k, r, n, v, x);
      var w :| w in Visits(k, r, n, v) && v(w) && w in k && x in k[w];
      var i :| 0 <= i < |k[w]| && k[w][i] == x;
      assert w == z;
      if z != y {
        VisitsSkipBelow(k, r, parent, n, v, y, z);
      }
    }
  }

  /** Every visited node is in the subtree. */
  lemma {:induction false} VisitsInPreorder(k: Kids, r: Rank, n: int, v: int -> bool, x: int)
    requires Ranked(k, r) && n in k && x in Visits(k, r, n, v)
    ensures x in Preorder(k, r, n)
    decreases r[n]
  {
    if x != n {
      VisitsOfMember(k, r, k[n], r[n], v, x);
      var i :| 0 <= i < |k[n]| && x in Visits(k, r, k[n][i], v);
      VisitsInPreorder(k, r, k[n][i], v, x);
      PreorderOfMember(k, r, k[n], r[n], x);
    }
  }

  /** The subtree at `n` is closed under taking children. */
  lemma PreorderClosed(k: Kids, r: Rank, n: int, y: int, x: int)
    requires Ranked(k, r) && n in k && y in Preorder(k, r, n) && y in k && x in k[y]
    ensures x in Preorder(k, r, n)
  {
    var all: int -> bool := _ => true;
    VisitsAllTrue(k, r, n, all);
    VisitsChildOfProceeding(k, r, n, all, y, x);
  }

  /** Every node of the subtree other than its top is a child of a node of
      the subtree. */
  lemma PreorderHasParent(k: Kids, r: Rank, n: int, x: int)
    requires Ranked(k, r) && n in k && x in Preorder(k, r, n) && x != n
    ensures exists y :: y in Preorder(k, r, n) && y in k && x in k[y]
  {
    var all: int -> bool := _ => true;
    VisitsAllTrue(k, r, n, all);
    VisitsParentProceeds(k, r, n, all, x);
  }

  /** Dropping children from lists keeps the ranks valid. */
  lemma SubRanked(k: Kids, k': Kids, r: Rank)
    requires Ranked(k, r) && k'.Keys == k.Keys
    requires forall x, i :: x in k' && 0 <= i < |k'[x]| ==> k'[x][i] in k[x]
    ensures Ranked(k', r)
  {
    forall x, i | x in k' && 0 <= i < |k'[x]|
      ensures k'[x][i] in k' && r[k'[x][i]] < r[x]
    {
      assert k'[x][i] in k[x];
      var j :| 0 <= j < |k[x]| && k[x][j] == k'[x][i];
    }
  }

  /** Dropping children from lists keeps the parent links valid. */
  lemma SubConsistent(k: Kids, k': Kids, parent: map<int, int>)
    requires Consistent(k, parent) && k'.Keys == k.Keys
    requires forall x, i :: x in k' && 0 <= i < |k'[x]| ==> k'[x][i] in k[x]
    ensures Consistent(k', parent)
  {
    forall x, i | x in k' && 0 <= i < |k'[x]|
      ensures k'[x][i] in parent && parent[k'[x][i]] == x
    {
      assert k'[x][i] in k[x];
      var j :| 0 <= j < |k[x]| && k[x][j] == k'[x][i];
    }
  }

  /** What `remove_if(n, p)` tests: exactly the children of `n` and of the
      kept nodes below it. In particular `n` itself is never tested, and
      nothing below an erased child is. */
  lemma TestedMember(k: Kids, r: Rank, n: int, p: int -> bool, x: int)
    requires Ranked(k, r) && n in k
    ensures n !in Tested(k, r, n, p)
    ensures x in Tested(k, r, n, p) <==>
      exists y :: Survives(k, r, n, p, y) && y in k && x in k[y]
  {
    if x in Tested(k, r, n, p) {
      TestedHasParent(k, r, n, p, x);
    }
    if exists y :: Survives(k, r, n, p, y) && y in k && x in k[y] {
      var y :| Survives(k, r, n, p, y) && y in k && x in k[y];
      ChildOfSurvivorTested(k, r, n, p, y, x);
    }
  }

  /** A node `remove_if(n, p)` tests is a child of a surviving node. */
  lemma TestedHasParent(k: Kids, r: Rank, n: int, p: int -> bool, x: int)
    requires Ranked(k, r) && n in k && x in Tested(k, r, n, p)
    ensures exists y :: Survives(k, r, n, p, y) && y in k && x in k[y]
  {
    var q := Not(p);
    VisitsOfMember(k, r, k[n], r[n], q, x);
    var i :| 0 <= i < |k[n]| && x in Visits(k, r, k[n][i], q);
    var c := k[n][i];
    if x != c {
      VisitsParentProceeds(k, r, c, q, x);
      var y :| y in Visits(k, r, c, q) && q(y) && y in k && x in k[y];
      VisitsOfMember(k, r, k[n], r[n], q, y);
      assert Survives(k, r, n, p, y);
    } else {
      assert Survives(k, r, n, p, n);
    }
  }

  /** Every child of a surviving node is tested by `remove_if(n, p)`. */
  lemma ChildOfSurvivorTested(k: Kids, r: Rank, n: int, p: int -> bool, y: int, x: int)
    requires Ranked(k, r) && n in k && Survives(k, r, n, p, y) && y in k && x in k[y]
    ensures x in Tested(k, r, n, p)
  {
    var q := Not(p);
    VisitsOfMember(k, r, k[n], r[n], q, x);
    var j :| 0 <= j < |k[y]| && k[y][j] == x;
    if y == n {
      assert x in Visits(k, r, k[n][j], q);
    } else {
      VisitsOfMember(k, r, k[n], r[n], q, y);
      var i :| 0 <= i < |k[n]| && y in Visits(k, r, k[n][i], q);
      VisitsChildOfProceeding(k, r, k[n][i], q, y, x);
    }
  }

  /** The pruned lists still rank correctly. */
  lemma PrunedRanked(k: Kids, r: Rank, n: int, p: int -> bool)
    requires Ranked(k, r) && n in k
    ensures Ranked(Pruned(k, r, n, p), r)
  {
    SubRanked(k, Pruned(k, r, n, p), r);
  }

  /** After `remove_if(n, p)` the subtree at `n` holds exactly the nodes that
      survive: `n` itself and the tested nodes `p` rejected. No node below `n`
      that satisfies `p` is still reachable. */
  lemma PrunedReach(k: Kids, r: Rank, n: int, p: int -> bool, x: int)
    requires Ranked(k, r) && n in k
    ensures Ranked(Pruned(k, r, n, p), r)
    ensures x in Preorder(Pruned(k, r, n, p), r, n) <==> Survives(k, r, n, p, x)
  {
    PrunedRanked(k, r, n, p);
    if x in Preorder(Pruned(k, r, n, p), r, n) {
      ReachedSurvives(k, r, n, p, x);
    }
    if Survives(k, r, n, p, x) {
      SurvivorReached(k, r, n, p, x);
    }
  }

  lemma {:induction false} ReachedSurvives(k: Kids, r: Rank, n: int, p: int -> bool, x: int)
    requires Ranked(k, r) && n in k && Ranked(Pruned(k, r, n, p), r)
    requires x in Preorder(Pruned(k, r, n, p), r, n)
    ensures Survives(k, r, n, p, x)
    decreases r[n] - r[x]
  {
    var k' := Pruned(k, r, n, p);
    if x != n {
      PreorderHasParent(k', r, n, x);
      var y :| y in Preorder(k', r, n) && y in k' && x in k'[y];
      ReachedSurvives(k, r, n, p, y);
      assert x in k[y] && !p(x);
      TestedMember(k, r, n, p, x);
    }
  }

  lemma {:induction false} SurvivorReached(k: Kids, r: Rank, n: int, p: int -> bool, x: int)
    requires Ranked(k, r) && n in k && Ranked(Pruned(k, r, n, p), r)
    requires Survives(k, r, n, p, x)
    ensures x in Preorder(Pruned(k, r, n, p), r, n)
    decreases r[n] - r[x]
  {
    var k' := Pruned(k, r, n, p);
    if x != n {
      TestedMember(k, r, n, p, x);
      var y :| Survives(k, r, n, p, y) && y in k && x in k[y];
      SurvivorReached(k, r, n, p, y);
      assert x in k'[y];
      PreorderClosed(k', r, n, y, x);
    }
  }

  /** No child list holds a node twice. */
  ghost predicate DuplicateFree(k: Kids) {
    forall x :: x in k ==> NoDup(k[x])
  }

  /** No child list holds `c`: it has no parent in the current structure. */
  ghost predicate Detached(k: Kids, c: int) {
    forall x :: x in k ==> c !in k[x]
  }

  /** The ranks after hanging the subtree at `c` below some other node: the
      subtree keeps its ranks and every other node is lifted above it. */
  ghost function Lifted(k: Kids, r: Rank, c: int): (r': Rank)
    requires Ranked(k, r) && c in k
    ensures r'.Keys == r.Keys
  {
    map x | x in r :: if x in Preorder(k, r, c) then r[x] else r[x] + r[c] + 1
  }

  /** Hanging `c` at the end of the child list of a node outside its subtree
      leaves the structure acyclic. */
  lemma AttachRanked(k: Kids, r: Rank, p: int, c: int)
    requires Ranked(k, r) && p in k && c in k && p !in Preorder(k, r, c)
    ensures Ranked(k[p := k[p] + [c]], Lifted(k, r, c))
  {
    var k' := k[p := k[p] + [c]];
    var r' := Lifted(k, r, c);
    forall x, i | x in k' && 0 <= i < |k'[x]|
      ensures k'[x][i] in k' && r'[k'[x][i]] < r'[x]
    {
      var y := k'[x][i];
      if x == p && i == |k[p]| {
        assert y == c;
      } else {
        assert y == k[x][i];
        if x in Preorder(k, r, c) {
          PreorderClosed(k, r, c, x, y);
        } else {
          assert r[y] <= r[c] || y !in Preorder(k, r, c);
        }
      }
    }
  }

  /** Hanging a detached node `c` below `p` keeps every parent link right. */
  lemma AttachConsistent(k: Kids, parent: map<int, int>, p: int, c: int)
    requires Consistent(k, parent) && p in k && Detached(k, c)
    ensures Consistent(k[p := k[p] + [c]], parent[c := p])
  {
    var k' := k[p := k[p] + [c]];
    forall x, i | x in k' && 0 <= i < |k'[x]|
      ensures k'[x][i] in parent[c := p] && parent[c := p][k'[x][i]] == x
    {
      if x == p && i == |k[p]| {
      } else {
        assert k'[x][i] == k[x][i];
      }
    }
  }

  /** The arena of tree nodes. `kids[x]` is the child list of node `x`,
      `parent[x]` the node that last adopted `x` (it is not cleared by
      `RemoveChild`, as in the source), and `next` the next fresh handle. */
  class Forest {
    var kids: Kids
    var parent: map<int, int>
    var next: int
    ghost var rank: Rank

    ghost predicate Valid()
      reads this
    {
      Ranked(kids, rank) && rank.Keys == kids.Keys && Consistent(kids, parent) && DuplicateFree(kids) &&
      (forall x :: x in kids ==> x < next)
    }

    constructor()
      ensures Valid() && kids == map[] && parent == map[]
    {
      kids := map[];
      parent := map[];
      next := 0;
      rank := map[];
    }

    /** A new node with no children and no parent (the `is_node` constructor). */
    method NewNode() returns (n: int)
      requires Valid()
      modifies this
      ensures Valid()
      ensures n !in old(kids) && kids == old(kids)[n := []] && parent == old(parent)
      ensures Detached(kids, n)
      ensures rank == old(rank)[n := 0]
    {
      n := next;
      kids := kids[n := []];
      rank := rank[n := 0];
      next := next + 1;
    }

    /** `add_child`: a null child or one already in the list is refused;
        otherwise the child goes at the end of the list and its parent link
        is set. The new child must not already hang below another node, and
        this node must not lie in its subtree. */
    method AddChild(p: int, c: Option<int>) returns (ok: bool)
      requires Valid() && p in kids
      requires c.Some? ==> (c.value in kids &&
        (c.value in kids[p] || (Detached(kids, c.value) && p !in Preorder(kids, rank, c.value))))
      modifies this
      ensures Valid() && next == old(next)
      ensures ok <==> c.Some? && c.value !in old(kids[p])
      ensures !ok ==> kids == old(kids) && parent == old(parent) && rank == old(rank)
      ensures ok ==> kids == old(kids)[p := old(kids[p]) + [c.value]] && parent == old(parent)[c.value := p]
    {
      if c.None? {
        return false;
      }
      var child := c.value;
      var at := Find(kids[p], child);
      if at < |kids[p]| {
        return false;
      }
      AttachChild(kids, rank, parent, next, p, child);
      rank := Lifted(kids, rank, child);
      kids := kids[p := kids[p] + [child]];
      parent := parent[child := p];
      ok := true;
    }

    /** Hanging a detached node `c` that is not above `p` at the end of
        `p`'s list keeps the lists ranked, linked and duplicate-free. */
    static lemma AttachChild(k: Kids, r: Rank, parent: map<int, int>, next: int, p: int, c: int)
      requires Ranked(k, r) && r.Keys == k.Keys && Consistent(k, parent) && DuplicateFree(k)
      requires forall x :: x in k ==> x < next
      requires p in k && c in k && c !in k[p] && Detached(k, c) && p !in Preorder(k, r, c)
      ensures var k' := k[p := k[p] + [c]];
        Ranked(k', Lifted(k, r, c)) && Lifted(k, r, c).Keys == k'.Keys &&
        Consistent(k', parent[c := p]) && DuplicateFree(k') && forall x :: x in k' ==> x < next
    {
      AttachRanked(k, r, p, c);
      AttachConsistent(k, parent, p, c);
      var l := k[p] + [c];
      assert NoDup(l) by {
        assert forall i :: 0 <= i < |k[p]| ==> l[i] == k[p][i];
      }
    }

    /** `remove_child`: erases the child from the list, keeping the others
        in order; an absent or null child is refused. */
    method RemoveChild(p: int, c: Option<int>) returns (ok: bool)
      requires Valid() && p in kids
      modifies this
      ensures Valid() && next == old(next) && parent == old(parent) && rank == old(rank)
      ensures ok <==> c.Some? && c.value in old(kids[p])
      ensures !ok ==> kids == old(kids)
      ensures ok ==> exists i ::
        0 <= i < |old(kids[p])| && old(kids[p])[i] == c.value &&
        kids == old(kids)[p := old(kids[p])[..i] + old(kids[p])[i + 1..]]
      ensures c.Some? ==> c.value !in kids[p]
    {
      if c.None? {
        return false;
      }
      var at := Find(kids[p], c.value);
      if at == |kids[p]| {
        return false;
      }
      EraseChild(kids, rank, parent, next, p, at);
      kids := kids[p := kids[p][..at] + kids[p][at + 1..]];
      ok := true;
    }

    /** Erasing the child at position `at` of `p` keeps the lists ranked,
        linked and duplicate-free, and leaves that child out of `p`'s list. */
    static lemma EraseChild(k: Kids, r: Rank, parent: map<int, int>, next: int, p: int, at: int)
      requires Ranked(k, r) && r.Keys == k.Keys && Consistent(k, parent) && DuplicateFree(k)
      requires forall x :: x in k ==> x < next
      requires p in k && 0 <= at < |k[p]|
      ensures var k' := k[p := k[p][..at] + k[p][at + 1..]];
        Ranked(k', r) && r.Keys == k'.Keys && Consistent(k', parent) && DuplicateFree(k') &&
        (forall x :: x in k' ==> x < next) && k[p][at] !in k'[p]
    {
      var rest := k[p][..at] + k[p][at + 1..];
      var k' := k[p := rest];
      EraseAtNoDup(k[p], at);
      SubRanked(k, k', r);
      SubConsistent(k, k', parent);
    }

    /** `depth_first_search`: the first node in pre-order that satisfies
        `pred`, or None for a null root or when nothing matches. `tested` is
        the sequence of nodes handed to `pred`: a prefix of the pre-order
        that ends at the match, so nothing after the match is tested. */
    method DepthFirstSearch(root: Option<int>, pred: int -> bool) returns (found: Option<int>, ghost tested: seq<int>)
      requires Valid() && (root.Some? ==> root.value in kids)
      ensures root.None? ==> found.None? && tested == []
      ensures root.Some? ==> found == First(Preorder(kids, rank, root.value), pred)
      ensures root.Some? ==> tested <= Preorder(kids, rank, root.value)
      ensures found.None? ==> root.None? || tested == Preorder(kids, rank, root.value)
      ensures found.Some? ==> |tested| > 0 && tested[|tested| - 1] == found.value
    {
      if root.None? {
        return None, [];
      }
      found, tested := Search(root.value, pred);
    }

    method Search(n: int, pred: int -> bool) returns (found: Option<int>, ghost tested: seq<int>)
      requires Valid() && n in kids
      ensures found == First(Preorder(kids, rank, n), pred)
      ensures tested <= Preorder(kids, rank, n)
      ensures found.None? ==> tested == Preorder(kids, rank, n)
      ensures found.Some? ==> |tested| > 0 && tested[|tested| - 1] == found.value
      decreases rank[n]
    {
      tested := [n];
      SearchStart(kids, rank, n, pred);
      if pred(n) {
        return Some(n), tested;
      }
      var cs := kids[n];
      var i := 0;
      while i < |cs|
        invariant SearchLoop(kids, rank, n, pred, i, tested)
      {
        var f, t := Search(cs[i], pred);
        SearchStep(kids, rank, n, i, pred, tested, f, t);
        if f.Some? {
          return f, tested + t;
        }
        tested := tested + t;
        i := i + 1;
      }
      SearchEnd(kids, rank, n, pred, tested);
      found := None;
    }

    /** `transverse_depth_first`: the nodes handed to the visitor `v`, in
        the order they are visited. A null root visits nothing. */
    method TransverseDepthFirst(root: Option<int>, v: int -> bool) returns (log: seq<int>)
      requires Valid() && (root.Some? ==> root.value in kids)
      ensures log == if root.None? then [] else Visits(kids, rank, root.value, v)
    {
      if root.None? {
        return [];
      }
      log := Walk(root.value, v);
    }

    method Walk(n: int, v: int -> bool) returns (log: seq<int>)
      requires Valid() && n in kids
      ensures log == Visits(kids, rank, n, v)
      decreases rank[n]
    {
      log := [n];
      if !v(n) {
        return;
      }
      var cs := kids[n];
      var i := 0;
      WalkStart(kids, rank, n, v);
      while i < |cs|
        invariant WalkLoop(kids, rank, n, v, i, log)
      {
        var sub := Walk(cs[i], v);
        WalkStep(kids, rank, n, v, i, log, sub);
        log := log + sub;
        i := i + 1;
      }
      WalkEnd(kids, rank, n, v, log);
    }

    /** `remove_if`: walks the children of `root` in order; a child that
        satisfies `p` is erased together with its subtree, any other child is
        processed the same way. The root itself is never tested, and a null
        root changes nothing. `tested` is the sequence of nodes handed to `p`. */
    method RemoveIf(root: Option<int>, p: int -> bool) returns (ghost tested: seq<int>)
      requires Valid() && (root.Some? ==> root.value in kids)
      modifies this
      ensures Valid() && parent == old(parent) && rank == old(rank) && next == old(next)
      ensures root.None? ==> kids == old(kids) && tested == []
      ensures root.Some? ==> kids == Pruned(old(kids), rank, root.value, p)
      ensures root.Some? ==> tested == Tested(old(kids), rank, root.value, p)
    {
      if root.None? {
        return [];
      }
      tested := Prune(root.value, p);
    }

    method Prune(n: int, p: int -> bool) returns (ghost tested: seq<int>)
      requires Valid() && n in kids
      modifies this
      ensures Valid() && parent == old(parent) && rank == old(rank) && next == old(next)
      ensures kids == Pruned(old(kids), rank, n, p)
      ensures tested == Tested(old(kids), rank, n, p)
      decreases rank[n], 1
    {
      ghost var k0 := kids;
      var i := 0;
      ghost var j := 0;
      tested := [];
      PruneStart(k0, rank, n, p);
      while i < |kids[n]|
        invariant parent == old(parent) && rank == old(rank) && next == old(next) && k0 == old(kids)
        invariant PruneLoop(k0, kids, rank, parent, next, n, p, j, i, tested)
        decreases |k0[n]| - j
      {
        PruneLoopAt(k0, kids, rank, parent, next, n, p, j, i, tested);
        i, tested := PruneChild(k0, n, p, j, i, tested);
        j := j + 1;
      }
      PruneLoopAt(k0, kids, rank, parent, next, n, p, j, i, tested);
      PruneDone(k0, kids, rank, n, p, j, tested);
    }

    /** One round of the loop in `Prune`: the `i`-th child of `n` is erased
        when it satisfies `p`, and pruned in turn otherwise. */
    method PruneChild(ghost k0: Kids, n: int, p: int -> bool, ghost j: int, i: int, ghost tested: seq<int>)
      returns (i': int, ghost tested': seq<int>)
      requires PruneLoop(k0, kids, rank, parent, next, n, p, j, i, tested) && i < |kids[n]|
      modifies this
      ensures parent == old(parent) && rank == old(rank) && next == old(next)
      ensures PruneLoop(k0, kids, rank, parent, next, n, p, j + 1, i', tested')
      decreases rank[n], 0
    {
      var c := kids[n][i];
      if p(c) {
        EraseLoop(k0, kids, rank, parent, next, n, p, j, i, tested);
        kids := kids[n := kids[n][..i] + kids[n][i + 1..]];
        i', tested' := i, tested + [c];
      } else {
        ghost var k1 := kids;
        PruneLoopAt(k0, kids, rank, parent, next, n, p, j, i, tested);
        ghost var t := Prune(c, p);
        RecurseLoop(k0, k1, rank, parent, next, n, p, j, i, tested);
        i', tested' := i + 1, tested + [c] + t;
      }
    }

    /** `children_size`. */
    method ChildrenSize(p: int) returns (size: nat)
      requires p in kids
      ensures size == |kids[p]|
    {
      size := |kids[p]|;
    }
  }

  /** The position in `n`'s child list where the const overload of
      `children_end` stands, as written: the position of `children_begin`. */
  function ConstChildrenEndAsWritten(k: Kids, n: int): nat
    requires n in k
  {
    0
  }

  /** As written, a const walk over `n`'s children from `children_begin` to
      `children_end` sees none of them, even when `n` has children. */
  lemma ConstChildrenAsWritten(k: Kids, n: int)
    requires n in k && |k[n]| > 0
    ensures k[n][..ConstChildrenEndAsWritten(k, n)] == [] != k[n]
  {
  }

  /** The corrected const `children_end`: one past the last child, so that
      the walk from `children_begin` sees every child in order, as many as
      `children_size` counts. */
  function ConstChildrenEnd(k: Kids, n: int): (e: nat)
    requires n in k
    ensures e <= |k[n]| && k[n][..e] == k[n]
  {
    |k[n]|
  }

  /** Adding a fresh childless node changes no existing listing. */
  lemma {:induction false} PreorderExtend(k: Kids, r: Rank, n: int, x: int)
    requires Ranked(k, r) && n !in k && n !in r && x in k
    ensures Ranked(k[n := []], r[n := 0])
    ensures Preorder(k[n := []], r[n := 0], x) == Preorder(k, r, x)
    decreases r[x], 1, 0
  {
    PreorderOfExtend(k, r, n, k[x], r[x]);
  }

  lemma {:induction false} PreorderOfExtend(k: Kids, r: Rank, n: int, cs: seq<int>, bound: nat)
    requires Ranked(k, r) && n !in k && n !in r && Below(k, r, cs, bound)
    ensures Ranked(k[n := []], r[n := 0])
    ensures PreorderOf(k[n := []], r[n := 0], cs, bound) == PreorderOf(k, r, cs, bound)
    decreases bound, 0, |cs|
  {
    if cs != [] {
      PreorderOfExtend(k, r, n, cs[..|cs| - 1], bound);
      PreorderExtend(k, r, n, cs[|cs| - 1]);
    }
  }

  /** The state of the child loop of `depth_first_search` at `n` after `i`
      children: `tested` is `n` and the pre-order listings of those
      children, and nothing in it satisfies the predicate. */
  ghost predicate SearchLoop(k: Kids, r: Rank, n: int, pred: int -> bool, i: int, tested: seq<int>) {
    Ranked(k, r) && n in k && 0 <= i <= |k[n]| && Below(k, r, k[n][..i], r[n]) &&
    tested == [n] + PreorderOf(k, r, k[n][..i], r[n]) && First(tested, pred).None?
  }

  /** The state of the child loop of `transverse_depth_first` at `n` after
      `i` children: `log` is `n` and the visits of those children. */
  ghost predicate WalkLoop(k: Kids, r: Rank, n: int, v: int -> bool, i: int, log: seq<int>) {
    Ranked(k, r) && n in k && 0 <= i <= |k[n]| && Below(k, r, k[n][..i], r[n]) &&
    log == [n] + VisitsOf(k, r, k[n][..i], r[n], v)
  }

  lemma WalkStart(k: Kids, r: Rank, n: int, v: int -> bool)
    requires Ranked(k, r) && n in k
    ensures WalkLoop(k, r, n, v, 0, [n])
  {
    assert k[n][..0] == [];
  }

  lemma WalkStep(k: Kids, r: Rank, n: int, v: int -> bool, i: int, log: seq<int>, sub: seq<int>)
    requires WalkLoop(k, r, n, v, i, log) && i < |k[n]| && sub == Visits(k, r, k[n][i], v)
    ensures WalkLoop(k, r, n, v, i + 1, log + sub)
  {
    assert k[n][..i + 1][..i] == k[n][..i];
  }

  /** After the last child the log is the whole walk of a node whose
      visitor returned true. */
  lemma WalkEnd(k: Kids, r: Rank, n: int, v: int -> bool, log: seq<int>)
    requires n in k && WalkLoop(k, r, n, v, |k[n]|, log) && v(n)
    ensures log == Visits(k, r, n, v)
  {
    assert k[n][..|k[n]|] == k[n];
  }

  /** Where `depth_first_search` starts: the node itself is tested first. */
  lemma SearchStart(k: Kids, r: Rank, n: int, pred: int -> bool)
    requires Ranked(k, r) && n in k
    ensures pred(n) ==> First(Preorder(k, r, n), pred) == Some(n) && [n] <= Preorder(k, r, n)
    ensures !pred(n) ==> SearchLoop(k, r, n, pred, 0, [n])
  {
    assert k[n][..0] == [];
  }

  /** Where `depth_first_search` ends without a match: every node of the
      subtree was tested and none satisfied the predicate. */
  lemma SearchEnd(k: Kids, r: Rank, n: int, pred: int -> bool, tested: seq<int>)
    requires n in k && SearchLoop(k, r, n, pred, |k[n]|, tested)
    ensures tested == Preorder(k, r, n) && First(Preorder(k, r, n), pred).None?
  {
    assert k[n][..|k[n]|] == k[n];
  }

  /** One round of the child loop of `depth_first_search`: searching the next
      child either finds the overall first match or extends the unmatched
      prefix of the pre-order by that child's subtree. */
  lemma SearchStep(k: Kids, r: Rank, n: int, i: int, pred: int -> bool, tested: seq<int>, f: Option<int>, t: seq<int>)
    requires SearchLoop(k, r, n, pred, i, tested) && i < |k[n]|
    requires f == First(Preorder(k, r, k[n][i]), pred) && t <= Preorder(k, r, k[n][i])
    requires f.None? ==> t == Preorder(k, r, k[n][i])
    requires f.Some? ==> |t| > 0 && t[|t| - 1] == f.value
    ensures f.Some? ==> (f == First(Preorder(k, r, n), pred) && tested + t <= Preorder(k, r, n) &&
      (tested + t)[|tested + t| - 1] == f.value)
    ensures f.None? ==> SearchLoop(k, r, n, pred, i + 1, tested + t)
  {
    if f.Some? {
      SearchFound(k, r, n, i, pred, tested, f, t);
    } else {
      SearchMissed(k, r, n, i, pred, tested, t);
    }
  }

  /** The child's search found a match: it is the first match of the whole
      pre-order, and the nodes tested so far form a prefix ending at it. */
  lemma SearchFound(k: Kids, r: Rank, n: int, i: int, pred: int -> bool, tested: seq<int>, f: Option<int>, t: seq<int>)
    requires SearchLoop(k, r, n, pred, i, tested) && i < |k[n]|
    requires f == First(Preorder(k, r, k[n][i]), pred) && f.Some?
    requires t <= Preorder(k, r, k[n][i]) && |t| > 0 && t[|t| - 1] == f.value
    ensures f == First(Preorder(k, r, n), pred) && tested + t <= Preorder(k, r, n)
    ensures (tested + t)[|tested + t| - 1] == f.value
  {
    var A := PreorderOf(k, r, k[n][..i], r[n]);
    var before := [n] + A;
    var after := PreorderOf(k, r, k[n][i + 1..], r[n]);
    var P := Preorder(k, r, k[n][i]);
    PreorderSplit(k, r, n, i);
    assert Preorder(k, r, n) == before + P + after;
    assert (before + P + after)[..|before + t|] == before + t;
    FirstAppend(before, P, pred);
    FirstAppend(before + P, after, pred);
  }

  /** The child's search found nothing: its whole pre-order joins the nodes
      tested, still without a match. */
  lemma SearchMissed(k: Kids, r: Rank, n: int, i: int, pred: int -> bool, tested: seq<int>, t: seq<int>)
    requires SearchLoop(k, r, n, pred, i, tested) && i < |k[n]|
    requires First(Preorder(k, r, k[n][i]), pred).None? && t == Preorder(k, r, k[n][i])
    ensures SearchLoop(k, r, n, pred, i + 1, tested + t)
  {
    var A := PreorderOf(k, r, k[n][..i], r[n]);
    PreorderSplit(k, r, n, i);
    AppendAssoc([n], A, t);
    FirstAppend([n] + A, t, pred);
  }

  /** The pre-order listing of `n` split around its `i`-th child. */
  lemma PreorderSplit(k: Kids, r: Rank, n: int, i: int)
    requires Ranked(k, r) && n in k && 0 <= i < |k[n]|
    ensures Below(k, r, k[n][..i], r[n]) && Below(k, r, k[n][..i + 1], r[n]) && Below(k, r, k[n][i + 1..], r[n])
    ensures PreorderOf(k, r, k[n][..i + 1], r[n]) == PreorderOf(k, r, k[n][..i], r[n]) + Preorder(k, r, k[n][i])
    ensures Preorder(k, r, n) ==
      [n] + PreorderOf(k, r, k[n][..i], r[n]) + Preorder(k, r, k[n][i]) + PreorderOf(k, r, k[n][i + 1..], r[n])
  {
    var cs := k[n];
    assert cs[..i + 1][..i] == cs[..i];
    PreorderOfAppend(k, r, cs[..i + 1], cs[i + 1..], r[n]);
    assert cs[..i + 1] + cs[i + 1..] == cs;
  }

  /** The state of `remove_if(n, p)` after its loop has dealt with the first
      `j` children of `n` in the original lists `k0`: the handled children
      satisfying `p` are erased from `n`'s list, the nodes tested so far are
      the walks of those children, and exactly the kept tested nodes have had
      their own lists filtered. */
  ghost predicate PruneState(k0: Kids, k: Kids, r: Rank, n: int, p: int -> bool, j: int, tested: seq<int>) {
    Ranked(k0, r) && n in k0 && k.Keys == k0.Keys && 0 <= j <= |k0[n]| &&
    k[n] == RemoveWhere(k0[n][..j], p) + k0[n][j..] &&
    Below(k0, r, k0[n][..j], r[n]) &&
    tested == VisitsOf(k0, r, k0[n][..j], r[n], Not(p)) &&
    forall x :: x in k && x != n ==> k[x] == if x in tested && !p(x) then RemoveWhere(k0[x], p) else k0[x]
  }

  lemma PruneStart(k0: Kids, r: Rank, n: int, p: int -> bool)
    requires Ranked(k0, r) && n in k0
    ensures PruneState(k0, k0, r, n, p, 0, [])
  {
    assert k0[n][..0] == [];
    assert k0[n][0..] == k0[n];
  }

  /** Where the loop stands: its index into the current list points at the
      next original child, and it ends when the original list is done. */
  lemma PruneAt(k0: Kids, k: Kids, r: Rank, n: int, p: int -> bool, j: int, tested: seq<int>)
    requires PruneState(k0, k, r, n, p, j, tested)
    ensures |RemoveWhere(k0[n][..j], p)| < |k[n]| <==> j < |k0[n]|
    ensures j < |k0[n]| ==> k[n][|RemoveWhere(k0[n][..j], p)|] == k0[n][j]
  {
  }

  /** Everything the loop of `Forest.Prune` keeps: the state of the walk,
      the forest invariant for the current lists, and the loop's index `i`
      into the current child list of `n`. */
  ghost predicate PruneLoop(k0: Kids, k: Kids, r: Rank, parent: map<int, int>, next: int,
                            n: int, p: int -> bool, j: int, i: int, tested: seq<int>) {
    PruneState(k0, k, r, n, p, j, tested) && r.Keys == k0.Keys &&
    Consistent(k0, parent) && DuplicateFree(k0) && (forall x :: x in k0 ==> x < next) &&
    Ranked(k, r) && Consistent(k, parent) && DuplicateFree(k) &&
    i == |RemoveWhere(k0[n][..j], p)|
  }

  lemma PruneLoopAt(k0: Kids, k: Kids, r: Rank, parent: map<int, int>, next: int,
                    n: int, p: int -> bool, j: int, i: int, tested: seq<int>)
    requires PruneLoop(k0, k, r, parent, next, n, p, j, i, tested)
    ensures i < |k[n]| <==> j < |k0[n]|
    ensures j < |k0[n]| ==> k[n][i] == k0[n][j]
    ensures r.Keys == k.Keys && forall x :: x in k ==> x < next
  {
    PruneAt(k0, k, r, n, p, j, tested);
  }

  lemma EraseLoop(k0: Kids, k: Kids, r: Rank, parent: map<int, int>, next: int,
                  n: int, p: int -> bool, j: int, i: int, tested: seq<int>)
    requires PruneLoop(k0, k, r, parent, next, n, p, j, i, tested) && i < |k[n]| && p(k[n][i])
    ensures PruneLoop(k0, k[n := k[n][..i] + k[n][i + 1..]], r, parent, next, n, p, j + 1, i, tested + [k[n][i]])
  {
    PruneAt(k0, k, r, n, p, j, tested);
    EraseStep(k0, k, r, parent, n, p, j, tested);
    var k' := k[n := k[n][..i] + k[n][i + 1..]];
    PruneStateValid(k0, k', r, parent, n, p, j + 1, tested + [k[n][i]]);
  }

  lemma RecurseLoop(k0: Kids, k: Kids, r: Rank, parent: map<int, int>, next: int,
                    n: int, p: int -> bool, j: int, i: int, tested: seq<int>)
    requires PruneLoop(k0, k, r, parent, next, n, p, j, i, tested) && i < |k[n]| && !p(k[n][i])
    ensures k[n][i] in k
    ensures PruneLoop(k0, Pruned(k, r, k[n][i], p), r, parent, next, n, p, j + 1, i + 1,
      tested + [k[n][i]] + Tested(k, r, k[n][i], p))
  {
    PruneAt(k0, k, r, n, p, j, tested);
    RecurseStep(k0, k, r, parent, n, p, j, tested);
    var c := k[n][i];
    PruneStateValid(k0, Pruned(k, r, c, p), r, parent, n, p, j + 1, tested + [c] + Tested(k, r, c, p));
  }

  /** The lists of a loop state are still ranked, linked and duplicate-free. */
  lemma PruneStateValid(k0: Kids, k: Kids, r: Rank, parent: map<int, int>, n: int, p: int -> bool, j: int, tested: seq<int>)
    requires PruneState(k0, k, r, n, p, j, tested) && Consistent(k0, parent) && DuplicateFree(k0)
    ensures Ranked(k, r) && Consistent(k, parent) && DuplicateFree(k)
  {
    forall x, i | x in k && 0 <= i < |k[x]| ensures k[x][i] in k0[x] {
      if x == n {
        var a := RemoveWhere(k0[n][..j], p);
        if i < |a| {
          assert k[x][i] == a[i] && a[i] in k0[n][..j];
        } else {
          assert k[x][i] == k0[n][j + i - |a|];
        }
      }
    }
    SubRanked(k0, k, r);
    SubConsistent(k0, k, parent);
    forall x | x in k ensures NoDup(k[x]) {
      if x == n {
        RemoveWherePrefixNoDup(k0[n], j, p);
      } else {
        RemoveWhereNoDup(k0[x], p);
      }
    }
  }

  /** Erasing a child that satisfies `p` moves the loop on by one child. */
  lemma EraseStep(k0: Kids, k: Kids, r: Rank, parent: map<int, int>, n: int, p: int -> bool, j: int, tested: seq<int>)
    requires PruneState(k0, k, r, n, p, j, tested) && j < |k0[n]| && p(k0[n][j])
    ensures var i := |RemoveWhere(k0[n][..j], p)|;
      i < |k[n]| &&
      PruneState(k0, k[n := k[n][..i] + k[n][i + 1..]], r, n, p, j + 1, tested + [k0[n][j]]) &&
      |RemoveWhere(k0[n][..j + 1], p)| == i
  {
    var c := k0[n][j];
    var i := |RemoveWhere(k0[n][..j], p)|;
    EraseList(k0[n], j, p, k[n]);
    EraseVisits(k0, r, n, p, j, tested);
    var k' := k[n := k[n][..i] + k[n][i + 1..]];
    assert k'.Keys == k0.Keys && k'[n] == RemoveWhere(k0[n][..j + 1], p) + k0[n][j + 1..];
    forall x | x in k' && x != n
      ensures k'[x] == if x in tested + [c] && !p(x) then RemoveWhere(k0[x], p) else k0[x]
    {
      assert k'[x] == k[x];
      assert x in tested + [c] && !p(x) <==> x in tested && !p(x);
    }
  }

  /** The list part of `EraseStep`: the erased child was the first one not
      yet filtered, and it joins the filtered prefix without a trace. */
  lemma EraseList(cs: seq<int>, j: int, p: int -> bool, l: seq<int>)
    requires 0 <= j < |cs| && p(cs[j]) && l == RemoveWhere(cs[..j], p) + cs[j..]
    ensures var i := |RemoveWhere(cs[..j], p)|;
      i < |l| && l[..i] + l[i + 1..] == RemoveWhere(cs[..j + 1], p) + cs[j + 1..] &&
      |RemoveWhere(cs[..j + 1], p)| == i
  {
    var a := RemoveWhere(cs[..j], p);
    var i := |a|;
    assert cs[..j + 1][..j] == cs[..j];
    assert RemoveWhere(cs[..j + 1], p) == a;
    assert l[..i] == a;
    assert l[i + 1..] == cs[j + 1..];
  }

  /** The walk part of `EraseStep`: an erased child is visited but its
      subtree is not. */
  lemma EraseVisits(k0: Kids, r: Rank, n: int, p: int -> bool, j: int, tested: seq<int>)
    requires Ranked(k0, r) && n in k0 && 0 <= j < |k0[n]| && p(k0[n][j])
    requires Below(k0, r, k0[n][..j], r[n])
    requires tested == VisitsOf(k0, r, k0[n][..j], r[n], Not(p))
    ensures Below(k0, r, k0[n][..j + 1], r[n])
    ensures VisitsOf(k0, r, k0[n][..j + 1], r[n], Not(p)) == tested + [k0[n][j]]
  {
    var cs := k0[n];
    var c := cs[j];
    assert cs[..j + 1][..j] == cs[..j];
    assert Visits(k0, r, c, Not(p)) == [c];
  }

  /** Recursing into a child that `p` rejects moves the loop on by one child:
      the recursive call sees exactly the original lists of that child's
      subtree, because the subtrees of earlier siblings are disjoint from it. */
  lemma RecurseStep(k0: Kids, k: Kids, r: Rank, parent: map<int, int>, n: int, p: int -> bool, j: int, tested: seq<int>)
    requires PruneState(k0, k, r, n, p, j, tested) && j < |k0[n]| && !p(k0[n][j])
    requires Consistent(k0, parent) && DuplicateFree(k0) && Ranked(k, r)
    ensures k0[n][j] in k
    ensures PruneState(k0, Pruned(k, r, k0[n][j], p), r, n, p, j + 1,
      tested + [k0[n][j]] + Tested(k, r, k0[n][j], p))
    ensures |RemoveWhere(k0[n][..j + 1], p)| == |RemoveWhere(k0[n][..j], p)| + 1
  {
    var c := k0[n][j];
    SubtreeUntouched(k0, k, r, parent, n, p, j, tested);
    SubtreeWalk(k0, k, r, c, p);
    var t := Tested(k, r, c, p);
    RecurseLists(k0, k, r, n, p, j, tested);
    RecursePosition(k0, r, n, p, j, tested, t);
  }

  /** The position part of `RecurseStep`. */
  lemma RecursePosition(k0: Kids, r: Rank, n: int, p: int -> bool, j: int, tested: seq<int>, t: seq<int>)
    requires Ranked(k0, r) && n in k0 && 0 <= j < |k0[n]| && !p(k0[n][j])
    requires Below(k0, r, k0[n][..j], r[n])
    requires tested == VisitsOf(k0, r, k0[n][..j], r[n], Not(p))
    requires Visits(k0, r, k0[n][j], Not(p)) == [k0[n][j]] + t
    ensures Below(k0, r, k0[n][..j + 1], r[n])
    ensures VisitsOf(k0, r, k0[n][..j + 1], r[n], Not(p)) == tested + [k0[n][j]] + t
    ensures RemoveWhere(k0[n][..j], p) + k0[n][j..] == RemoveWhere(k0[n][..j + 1], p) + k0[n][j + 1..]
    ensures |RemoveWhere(k0[n][..j + 1], p)| == |RemoveWhere(k0[n][..j], p)| + 1
  {
    KeepList(k0[n], j, p);
    var cs := k0[n];
    assert cs[..j + 1][..j] == cs[..j];
    assert tested + ([cs[j]] + t) == tested + [cs[j]] + t;
  }

  /** A kept child joins the filtered prefix of its list. */
  lemma KeepList(cs: seq<int>, j: int, p: int -> bool)
    requires 0 <= j < |cs| && !p(cs[j])
    ensures RemoveWhere(cs[..j], p) + cs[j..] == RemoveWhere(cs[..j + 1], p) + cs[j + 1..]
    ensures |RemoveWhere(cs[..j + 1], p)| == |RemoveWhere(cs[..j], p)| + 1
  {
    var c := cs[j];
    assert cs[..j + 1][..j] == cs[..j];
    var a := RemoveWhere(cs[..j], p);
    assert RemoveWhere(cs[..j + 1], p) == a + [c];
    assert cs[j..] == [c] + cs[j + 1..];
    assert a + ([c] + cs[j + 1..]) == a + [c] + cs[j + 1..];
  }

  /** The list part of `RecurseStep`: the recursive call filters exactly the
      kept nodes of the child's walk, which join the kept tested nodes. */
  lemma RecurseLists(k0: Kids, k: Kids, r: Rank, n: int, p: int -> bool, j: int, tested: seq<int>)
    requires PruneState(k0, k, r, n, p, j, tested) && j < |k0[n]| && !p(k0[n][j]) && Ranked(k, r)
    requires forall y :: y in Preorder(k0, r, k0[n][j]) ==> y != n && y !in tested && y in k && k[y] == k0[y]
    requires forall y :: y in Tested(k0, r, k0[n][j], p) ==> y in Preorder(k0, r, k0[n][j])
    requires Tested(k, r, k0[n][j], p) == Tested(k0, r, k0[n][j], p)
    ensures var k' := Pruned(k, r, k0[n][j], p);
      k'.Keys == k0.Keys && k'[n] == k[n] &&
      forall x :: x in k' && x != n ==>
        k'[x] == if x in tested + [k0[n][j]] + Tested(k, r, k0[n][j], p) && !p(x) then RemoveWhere(k0[x], p) else k0[x]
  {
    var c := k0[n][j];
    var t := Tested(k, r, c, p);
    var k' := Pruned(k, r, c, p);
    assert n != c && n !in t;
    forall x | x in k' && x != n
      ensures k'[x] == if x in tested + [c] + t && !p(x) then RemoveWhere(k0[x], p) else k0[x]
    {
      assert x in tested + [c] + t <==> x in tested || x == c || x in t;
      if Survives(k, r, c, p, x) {
        assert x in Preorder(k0, r, c);
        assert k'[x] == RemoveWhere(k0[x], p);
      } else {
        assert k'[x] == k[x];
      }
    }
  }

  /** Before the loop recurses into its `j`-th child, nothing in that
      child's subtree has been tested or changed. */
  lemma SubtreeUntouched(k0: Kids, k: Kids, r: Rank, parent: map<int, int>, n: int, p: int -> bool, j: int, tested: seq<int>)
    requires PruneState(k0, k, r, n, p, j, tested) && j < |k0[n]|
    requires Consistent(k0, parent) && DuplicateFree(k0)
    ensures forall y :: y in Preorder(k0, r, k0[n][j]) ==> y != n && y !in tested && y in k && k[y] == k0[y]
    ensures AgreeOn(k0, k, Preorder(k0, r, k0[n][j]))
  {
    var cs := k0[n];
    var c := cs[j];
    var q := Not(p);
    forall y | y in Preorder(k0, r, c) ensures y != n && y !in tested && y in k && k[y] == k0[y] {
      if y in tested {
        VisitsOfMember(k0, r, cs[..j], r[n], q, y);
        var i :| 0 <= i < j && y in Visits(k0, r, cs[..j][i], q);
        VisitsInPreorder(k0, r, cs[i], q, y);
        assert cs[i] != c;
        SubtreesDisjoint(k0, r, parent, n, cs[i], c, y);
      }
    }
    var s := Preorder(k0, r, c);
    forall i | 0 <= i < |s| ensures s[i] in k0 && s[i] in k && k0[s[i]] == k[s[i]] {
      assert s[i] in s;
    }
  }

  /** A subtree whose lists are untouched is walked as in the original lists,
      and everything the walk tests lies in that subtree. */
  lemma SubtreeWalk(k0: Kids, k: Kids, r: Rank, c: int, p: int -> bool)
    requires Ranked(k0, r) && Ranked(k, r) && c in k0 && c in k && !p(c)
    requires AgreeOn(k0, k, Preorder(k0, r, c))
    ensures Tested(k, r, c, p) == Tested(k0, r, c, p)
    ensures Visits(k0, r, c, Not(p)) == [c] + Tested(k0, r, c, p)
    ensures forall y :: y in Tested(k0, r, c, p) ==> y in Preorder(k0, r, c)
  {
    var q := Not(p);
    VisitsFrame(k0, k, r, c, q);
    var w := Visits(k, r, c, q);
    assert w == [c] + Tested(k, r, c, p);
    assert w == [c] + Tested(k0, r, c, p);
    assert w[1..] == Tested(k, r, c, p) == Tested(k0, r, c, p);
    forall y | y in Tested(k0, r, c, p) ensures y in Preorder(k0, r, c) {
      VisitsInPreorder(k0, r, c, q, y);
    }
  }

  /** When the loop has dealt with every child, the lists are the pruned
      lists and the tested nodes are those of the whole walk. */
  lemma PruneDone(k0: Kids, k: Kids, r: Rank, n: int, p: int -> bool, j: int, tested: seq<int>)
    requires PruneState(k0, k, r, n, p, j, tested) && j >= |k0[n]|
    ensures k == Pruned(k0, r, n, p) && tested == Tested(k0, r, n, p)
  {
    assert j == |k0[n]|;
    assert k0[n][..|k0[n]|] == k0[n];
    assert k0[n][|k0[n]|..] == [];
    var k' := Pruned(k0, r, n, p);
    forall x | x in k ensures k[x] == k'[x] {
    }
  }
}
