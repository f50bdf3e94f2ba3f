/** The controller scheduler (controller/controller_manager.h and
    controller/controller_manager.cpp). It owns a root controller of type
    "root", a map of prototypes to clone controllers from, and the message
    queue; every controller is a node of one ownership tree. Controllers are
    named by their arena handle; `units` maps each handle to the controller
    object. What user code does (a controller's `initialize`, `control`,
    `handle_message` and `clone_prototype`) enters as parameters. */
module ControllerManager {
  import opened Optional
  import opened Lists
  import opened Ids
  import opened Parameters
  import opened Messages
  import opened MessageQueue
  import opened Tree
  import opened ControllerUnit

  /** `controller_has_name` (also the remove-by-name test): a non-empty
      name equal to `name`. */
  function HasName(names: map<int, string>, name: string): (f: int -> bool)
    ensures forall h :: f(h) <==> h in names && |names[h]| > 0 && names[h] == name
  {
    h => h in names && |names[h]| > 0 && names[h] == name
  }

  /** The equality tests of the walks: `add_if_name_is` (an equal name, the
      empty name included), `controller_has_type` and `add_if_type_is` over
      the types, and `controller_has_id` over the identifiers once the
      identifier reaches the test unchanged. */
  function ValueIs<T(==)>(m: map<int, T>, x: T): (f: int -> bool)
    ensures forall h :: f(h) <==> h in m && m[h] == x
  {
    h => h in m && m[h] == x
  }

  /** `should_remove`: a missing (null) controller or a dead one. */
  function ShouldRemove(alive: map<int, bool>): (f: int -> bool)
    ensures forall h :: f(h) <==> h !in alive || !alive[h]
  {
    h => h !in alive || !alive[h]
  }

  /** The `control` visitor of `step`: the root keeps the default
      `control()`, every other controller answers as user code says. */
  function Controls(control: int -> bool, root: int): (f: int -> bool)
    ensures f(root) == DefaultControl
    ensures forall h :: h != root ==> f(h) == control(h)
  {
    h => if h == root then DefaultControl else control(h)
  }

  /** Whose `control()` calls `remove_self`: the root keeps the default
      `control()`, which does not; every other controller as user code says. */
  function Quits(quits: int -> bool, root: int): (f: int -> bool)
    ensures !f(root)
    ensures forall h :: h != root ==> f(h) == quits(h)
  {
    h => h != root && quits(h)
  }

  /** A message a `control()` call queues through the send overloads: its
      sender, its recipient test and its parcel. */
  datatype Post = Post(from: Option<int>, to: Recipient, parcel: Parcel)

  /** What the root's `control()` queues: nothing, since the root keeps the
      default `control()`; every other controller as user code says. */
  function PostsOf(posts: int -> seq<Post>, root: int): (f: int -> seq<Post>)
    ensures f(root) == []
    ensures forall h :: h != root ==> f(h) == posts(h)
  {
    h => if h == root then [] else posts(h)
  }

  /** Which `handle_message` calls make their recipient call `remove_self`:
      none to the root, which keeps the default, empty `handle_message`;
      every other as user code says. */
  function LeavesOf(leaves: Delivery -> bool, root: int): (f: Delivery -> bool)
    ensures forall d :: f(d) <==> d.recipient != root && leaves(d)
  {
    (d: Delivery) => d.recipient != root && leaves(d)
  }

  /** The predicate that holds of `x` alone. */
  function Is(x: int): (f: int -> bool)
    ensures forall h :: f(h) <==> h == x
  {
    h => h == x
  }

  /** The queue entries for the posts `ps` of one `control()` call. */
  function Queued(ps: seq<Post>): (s: seq<Message>)
    ensures |s| == |ps|
    ensures forall i :: 0 <= i < |ps| ==> s[i] == NewMessage(ps[i].from, ps[i].to, ps[i].parcel)
  {
    seq(|ps|, i requires 0 <= i < |ps| => NewMessage(ps[i].from, ps[i].to, ps[i].parcel))
  }

  /** The messages the `control()` calls of `order` queue, in call order:
      `posts(h)` are those queued by `h`'s `control()`, each made unsent. */
  function Posted(order: seq<int>, posts: int -> seq<Post>): (s: seq<Message>)
    ensures forall i :: 0 <= i < |s| ==> !s[i].sent
  {
    if |order| == 0 then []
    else Posted(order[..|order| - 1], posts) + Queued(posts(order[|order| - 1]))
  }

  /** With the root's posts masked, the control pass queues exactly the
      posts of the other controllers, in call order. */
  lemma {:induction false} PostedSkipsRoot(order: seq<int>, posts: int -> seq<Post>, root: int)
    ensures Posted(order, PostsOf(posts, root)) == Posted(RemoveWhere(order, Is(root)), posts)
    decreases |order|
  {
    if |order| > 0 {
      var front, x := order[..|order| - 1], order[|order| - 1];
      var kept := RemoveWhere(front, Is(root));
      PostedSkipsRoot(front, posts, root);
      assert Posted(order, PostsOf(posts, root)) == Posted(kept, posts) + Queued(PostsOf(posts, root)(x));
      assert RemoveWhere(order, Is(root)) == kept + (if x == root then [] else [x]);
      if x == root {
        assert Queued(PostsOf(posts, root)(x)) == [];
        assert RemoveWhere(order, Is(root)) == kept;
        assert Posted(kept, posts) + [] == Posted(kept, posts);
      } else {
        assert (kept + [x])[..|kept + [x]| - 1] == kept;
        assert Posted(kept + [x], posts) == Posted(kept, posts) + Queued(posts(x));
      }
    }
  }

  /** The recipients, in call order, of the `handle_message` calls of `log`
      that call `remove_self`, as `leaves` says. */
  function Leavers(log: seq<Delivery>, leaves: Delivery -> bool): (s: seq<int>)
    ensures forall d :: d in log && leaves(d) ==> d.recipient in s
    ensures forall h :: h in s ==> exists d :: d in log && d.recipient == h
  {
    if |log| == 0 then []
    else
      var d := log[|log| - 1];
      var s' := Leavers(log[..|log| - 1], leaves);
      assert forall e :: e in log ==> e in log[..|log| - 1] || e == d by {
        assert log == log[..|log| - 1] + [d];
      }
      s' + if leaves(d) then [d.recipient] else []
  }

  /** No `handle_message` call removes the root: its handler is the
      default, empty one. */
  lemma {:induction false} RootNeverLeaves(log: seq<Delivery>, leaves: Delivery -> bool, root: int)
    ensures root !in Leavers(log, LeavesOf(leaves, root))
    decreases |log|
  {
    if |log| > 0 {
      RootNeverLeaves(log[..|log| - 1], leaves, root);
    }
  }

  /** A visitor that always goes on (`add_to_list`, the delivery walk). */
  function Everything(): (f: int -> bool)
    ensures forall h :: f(h)
  {
    _ => true
  }

  /** How the `create_controller` of the source ends: by throwing, or by
      returning a controller or null. */
  datatype Creation = Threw | Returned(controller: Option<int>)

  /** Every handle holds one of `controllers`, and different handles hold
      different controllers. */
  ghost predicate Injective(units: map<int, Unit>, controllers: set<Unit>) {
    (forall h :: h in units ==> units[h] in controllers) &&
    (forall a, b :: a in units && b in units && a != b ==> units[a] != units[b])
  }

  /** The manager's bookkeeping agrees with the tree: one controller per
      node, the root controller at the root, every prototype a controller,
      and every identifier one the counter handed out. */
  ghost predicate Sound(units: map<int, Unit>, controllers: set<Unit>, nodes: set<int>, root: int,
                        prototypes: map<string, int>, issued: seq<int>) {
    units.Keys == nodes && root in units && units[root].kind == RootKind &&
    (forall t :: t in prototypes ==> prototypes[t] in units) &&
    Injective(units, controllers) &&
    (forall h :: h in units ==> units[h].id.value in issued)
  }

  /** A new controller under a new handle, with a newly issued identifier,
      keeps the bookkeeping sound. */
  lemma SoundAdd(units: map<int, Unit>, controllers: set<Unit>, nodes: set<int>, root: int,
                 prototypes: map<string, int>, issued: seq<int>, h: int, u: Unit, nodes': set<int>)
    requires Sound(units, controllers, nodes, root, prototypes, issued)
    requires h !in nodes && u !in controllers && nodes' == nodes + {h}
    ensures Sound(units[h := u], controllers + {u}, nodes', root, prototypes, issued + [u.id.value])
  {
  }

  /** Drawing another identifier keeps the bookkeeping sound. */
  lemma SoundIssue(units: map<int, Unit>, controllers: set<Unit>, nodes: set<int>, root: int,
                   prototypes: map<string, int>, issued: seq<int>, v: int)
    requires Sound(units, controllers, nodes, root, prototypes, issued)
    ensures Sound(units, controllers, nodes, root, prototypes, issued + [v])
  {
  }

  class Manager {
    const tree: Forest
    const mailbox: MessageManager
    const ids: IdGenerator
    const root: int
    var units: map<int, Unit>
    var prototypes: map<string, int>
    /** Every controller object the manager has made. */
    ghost var controllers: set<Unit>

    ghost predicate Valid()
      reads this, tree, mailbox, ids
    {
      tree.Valid() && mailbox.Valid() && ids.Valid() &&
      Sound(units, controllers, tree.kids.Keys, root, prototypes, ids.issued)
    }

    /** Every handle holds one of `controllers`, and different handles hold
        different controllers. */
    ghost predicate Distinct()
      reads this
    {
      Injective(units, controllers)
    }

    /** The current name of every controller. */
    function Names(): (m: map<int, string>)
      reads this, controllers
      requires Distinct()
      ensures m.Keys == units.Keys && forall h :: h in units ==> m[h] == units[h].name
    {
      map h | h in units :: units[h].name
    }

    /** The current liveness of every controller. */
    function Alive(): (m: map<int, bool>)
      reads this, controllers
      requires Distinct()
      ensures m.Keys == units.Keys && forall h :: h in units ==> m[h] == units[h].alive
    {
      map h | h in units :: units[h].alive
    }

    /** The type name of every controller. */
    function Types(): (m: map<int, string>)
      reads this
      ensures m.Keys == units.Keys && forall h :: h in units ==> m[h] == units[h].kind.typeName
    {
      map h | h in units :: units[h].kind.typeName
    }

    /** The identifier of every controller. */
    function IdOf(): (m: map<int, IdType>)
      reads this
      ensures m.Keys == units.Keys && forall h :: h in units ==> m[h] == units[h].id
    {
      map h | h in units :: units[h].id
    }

    /** What the recipient tests see of each controller. */
    function Profiles(): (f: int -> Profile)
      reads this, controllers
      requires Distinct()
      ensures forall h :: h in units ==> f(h) == Profile(units[h].name, units[h].kind.typeName)
    {
      var names := Names();
      var types := Types();
      h => Profile(if h in names then names[h] else "", if h in types then types[h] else "")
    }

    /** The pre-order of the controller tree from the root. */
    ghost function Everyone(): seq<int>
      reads this, tree, mailbox, ids
      requires Valid()
    {
      Preorder(tree.kids, tree.rank, root)
    }

    /** The constructor: an empty tree under a fresh root controller, no
        prototypes, an empty queue; `firstId` is the identifier counter's
        value at this point. */
    constructor(firstId: int)
      requires 0 <= firstId < Modulus
      ensures Valid() && fresh(tree) && fresh(mailbox) && fresh(ids)
      ensures units.Keys == {root} && fresh(units[root])
      ensures units[root].name == "" && units[root].alive
      ensures tree.kids == map[root := []] && prototypes == map[] && mailbox.messages == []
    {
      var q := new MessageManager();
      var t := new Forest();
      var r := t.NewNode();
      var g := new IdGenerator(firstId);
      var id := g.Construct();
      var u := new Unit(id, RootKind);
      assert Sound(map[r := u], {u}, t.kids.Keys, r, map[], g.issued);
      tree := t;
      ids := g;
      mailbox := q;
      root := r;
      units := map[r := u];
      prototypes := map[];
      controllers := {u};
    }

    /** Controllers were only added: the old ones keep their handles and
        their children, and each new one is a childless node outside every
        child list, so the tree from any old node is as before. */
    ghost predicate Added(units0: map<int, Unit>, units1: map<int, Unit>, kids0: Kids, kids1: Kids) {
      units0.Keys <= units1.Keys && (forall h :: h in units0 ==> units1[h] == units0[h]) &&
      kids0.Keys <= kids1.Keys && (forall x :: x in kids0 ==> kids1[x] == kids0[x]) &&
      (forall h :: h in units1 && h !in units0 ==> h in kids1 && kids1[h] == [] && Detached(kids1, h))
    }

    /** Constructing a controller of a class with `kind` (user code): a new
        tree node with no parent and no children, a fresh identifier, an
        empty name, alive. */
    method NewController(kind: Kind) returns (h: int)
      requires Valid()
      modifies this, tree, ids
      ensures Valid()
      ensures h in units && h !in old(units) && units == old(units)[h := units[h]] && fresh(units[h])
      ensures units[h].kind == kind && units[h].name == "" && units[h].alive
      ensures units[h].id.value !in old(ids.issued) || |old(ids.issued)| >= Modulus
      ensures tree.kids == old(tree.kids)[h := []] && Detached(tree.kids, h)
      ensures prototypes == old(prototypes)
    {
      ghost var nodes, issued := tree.kids.Keys, ids.issued;
      h := tree.NewNode();
      var id := ids.Construct();
      ids.Fresh(issued, id.value);
      var u := new Unit(id, kind);
      Register(h, u, nodes, issued);
    }

    /** Records the new controller `u` under the new handle `h`. */
    method Register(h: int, u: Unit, ghost nodes: set<int>, ghost issued: seq<int>)
      requires tree.Valid() && mailbox.Valid() && ids.Valid()
      requires Sound(units, controllers, nodes, root, prototypes, issued)
      requires h !in nodes && u !in controllers && tree.kids.Keys == nodes + {h} && ids.issued == issued + [u.id.value]
      modifies this
      ensures Valid() && units == old(units)[h := u] && controllers == old(controllers) + {u}
      ensures prototypes == old(prototypes) && u.name == old(u.name) && u.alive == old(u.alive)
    {
      SoundAdd(units, controllers, nodes, root, prototypes, issued, h, u, tree.kids.Keys);
      units := units[h := u];
      controllers := controllers + {u};
    }

    /** `add_controller(c, parent)`: nothing happens when either is null;
        otherwise `parent->add_child(c)`. */
    method AddController(c: Option<int>, parent: Option<int>)
      requires Valid()
      requires parent.Some? ==> parent.value in units
      requires c.Some? && parent.Some? ==> (c.value in units &&
        (c.value in tree.kids[parent.value] ||
         (Detached(tree.kids, c.value) && parent.value !in Preorder(tree.kids, tree.rank, c.value))))
      modifies tree
      ensures Valid()
      ensures c.None? || parent.None? || c.value in old(tree.kids[parent.value]) ==> tree.kids == old(tree.kids)
      ensures c.Some? && parent.Some? && c.value !in old(tree.kids[parent.value]) ==>
        tree.kids == old(tree.kids)[parent.value := old(tree.kids[parent.value]) + [c.value]]
    {
      if parent.None? || c.None? {
        return;
      }
      var ok := tree.AddChild(parent.value, c);
    }

    /** `add_controller(c)`: below the root. */
    method AddControllerToRoot(c: Option<int>)
      requires Valid()
      requires c.Some? ==> (c.value in units &&
        (c.value in tree.kids[root] ||
         (Detached(tree.kids, c.value) && root !in Preorder(tree.kids, tree.rank, c.value))))
      modifies tree
      ensures Valid()
      ensures c.None? || c.value in old(tree.kids[root]) ==> tree.kids == old(tree.kids)
      ensures c.Some? && c.value !in old(tree.kids[root]) ==>
        tree.kids == old(tree.kids)[root := old(tree.kids[root]) + [c.value]]
    {
      AddController(c, Some(root));
    }

    /** `add_controller(c, params, parent)`: nothing happens when either is
        null; otherwise `c->initialize(params)` runs (its result is
        `initialized`) and `c` is attached only when it succeeded. */
    method AddInitializedController(c: Option<int>, initialized: bool, parent: Option<int>)
      requires Valid()
      requires parent.Some? ==> parent.value in units
      requires c.Some? && parent.Some? ==> (c.value in units &&
        (c.value in tree.kids[parent.value] ||
         (Detached(tree.kids, c.value) && parent.value !in Preorder(tree.kids, tree.rank, c.value))))
      modifies tree
      ensures Valid()
      ensures c.None? || parent.None? || !initialized || c.value in old(tree.kids[parent.value]) ==>
        tree.kids == old(tree.kids)
      ensures c.Some? && parent.Some? && initialized && c.value !in old(tree.kids[parent.value]) ==>
        tree.kids == old(tree.kids)[parent.value := old(tree.kids[parent.value]) + [c.value]]
    {
      if parent.None? || c.None? {
        return;
      }
      if !initialized {
        return;
      }
      var ok := tree.AddChild(parent.value, c);
    }

    /** `add_prototype`: ignored for a null prototype or an empty name;
        otherwise the name is bound, replacing any earlier binding. */
    method AddPrototype(name: string, prototype: Option<int>)
      requires Valid() && (prototype.Some? ==> prototype.value in units)
      modifies this
      ensures Valid() && units == old(units)
      ensures prototype.None? || name == "" ==> prototypes == old(prototypes)
      ensures prototype.Some? && name != "" ==> prototypes == old(prototypes)[name := prototype.value]
    {
      if prototype.Some? && name != "" {
        prototypes := prototypes[name := prototype.value];
      }
    }

    /** `find_prototype`: the prototype bound to `type`, or null. */
    method FindPrototype(typeName: string) returns (p: Option<int>)
      requires Valid()
      ensures p.Some? <==> typeName in prototypes
      ensures p.Some? ==> p.value == prototypes[typeName] && p.value in units
    {
      if typeName in prototypes {
        p := Some(prototypes[typeName]);
      } else {
        p := None;
      }
    }

    /** `clone_prototype` on the prototype `proto`, then `initialize` on the
        clone (its result is `initialized`): a clone of the same kind when
        the prototype's class can clone and the clone initializes, null
        otherwise. A clone that fails to initialize stays unattached. */
    method CloneAndInitialize(proto: int, initialized: bool) returns (c: Option<int>)
      requires Valid() && proto in units
      modifies this, tree, ids
      ensures Valid() && prototypes == old(prototypes)
      ensures c.Some? <==> old(units[proto].kind.clonable) && initialized
      ensures c.Some? ==> (c.value in units && c.value !in old(units) && units == old(units)[c.value := units[c.value]] &&
        fresh(units[c.value]) && units[c.value].kind == old(units[proto].kind) && units[c.value].alive &&
        tree.kids == old(tree.kids)[c.value := []] && Detached(tree.kids, c.value))
      ensures Added(old(units), units, old(tree.kids), tree.kids)
    {
      var kind := units[proto].kind;
      if !kind.clonable {
        return None;
      }
      var h := NewController(kind);
      if !initialized {
        return None;
      }
      c := Some(h);
    }

    /** `create_controller`, as the header promises: null when the type has
        no prototype, when the prototype cannot be cloned or when the clone
        fails to initialize. The prototypes are never modified, and the new
        controller is not put in the tree. */
    method CreateController(typeName: string, initialized: bool) returns (c: Option<int>)
      requires Valid()
      modifies this, tree, ids
      ensures Valid() && prototypes == old(prototypes)
      ensures c.Some? <==> typeName in old(prototypes) && old(units[prototypes[typeName]].kind.clonable) && initialized
      ensures c.Some? ==> (c.value in units && c.value !in old(units) && units == old(units)[c.value := units[c.value]] &&
        fresh(units[c.value]) && units[c.value].kind == old(units[prototypes[typeName]].kind) && units[c.value].alive &&
        tree.kids == old(tree.kids)[c.value := []] && Detached(tree.kids, c.value))
      ensures Added(old(units), units, old(tree.kids), tree.kids)
    {
      var proto := FindPrototype(typeName);
      if proto.None? {
        return None;
      }
      c := CloneAndInitialize(proto.value, initialized);
    }

    /** `create_controller` as written: the prototype's `weak_ptr` is turned
        into a `shared_ptr` with the converting constructor, which throws
        `bad_weak_ptr` for the empty pointer an unknown type yields. */
    method CreateControllerAsWritten(typeName: string, initialized: bool) returns (r: Creation)
      requires Valid()
      modifies this, tree, ids
      ensures Valid() && prototypes == old(prototypes)
      ensures typeName !in old(prototypes) ==> r == Threw && units == old(units) && tree.kids == old(tree.kids)
      ensures typeName in old(prototypes) ==> (r.Returned? &&
        (r.controller.Some? <==> old(units[prototypes[typeName]].kind.clonable) && initialized))
    {
      var proto := FindPrototype(typeName);
      if proto.None? {
        return Threw;
      }
      var c := CloneAndInitialize(proto.value, initialized);
      r := Returned(c);
    }

    /** `add_controller(type, params, parent)`: create, then attach below
        `parent`. The result is what the returned `weak_ptr` locks to: the
        new controller when it was attached, null otherwise (an unattached
        controller has no other owner and is gone once the call returns). */
    method AddControllerOfType(typeName: string, initialized: bool, parent: Option<int>) returns (w: Option<int>)
      requires Valid() && (parent.Some? ==> parent.value in units)
      modifies this, tree, ids
      ensures Valid() && prototypes == old(prototypes)
      ensures w.Some? <==> (parent.Some? && typeName in old(prototypes) &&
        old(units[prototypes[typeName]].kind.clonable) && initialized)
      ensures w.Some? ==> (w.value in units && w.value !in old(units) && units == old(units)[w.value := units[w.value]] &&
        units[w.value].kind == old(units[prototypes[typeName]].kind) && units[w.value].alive &&
        tree.kids == old(tree.kids)[w.value := []][parent.value := old(tree.kids[parent.value]) + [w.value]])
      ensures w.None? ==> Added(old(units), units, old(tree.kids), tree.kids)
    {
      var c := CreateController(typeName, initialized);
      if c.None? || parent.None? {
        return None;
      }
      Attach(c.value, parent.value);
      w := c;
    }

    /** `add_controller(c, parent)` for a controller just created: it is
        not in any child list yet, so it goes last in the parent's list. */
    method Attach(c: int, parent: int)
      requires Valid() && c in units && parent in units && c != parent
      requires tree.kids[c] == [] && Detached(tree.kids, c)
      modifies tree
      ensures Valid() && units == old(units) && prototypes == old(prototypes)
      ensures units[c].alive == old(units[c].alive)
      ensures tree.kids == old(tree.kids)[parent := old(tree.kids[parent]) + [c]]
    {
      assert Preorder(tree.kids, tree.rank, c) == [c];
      AddController(Some(c), Some(parent));
    }

    /** `add_controller(type, params)`: below the root. */
    method AddControllerOfTypeToRoot(typeName: string, initialized: bool) returns (w: Option<int>)
      requires Valid()
      modifies this, tree, ids
      ensures Valid() && prototypes == old(prototypes)
      ensures w.Some? <==> typeName in old(prototypes) && old(units[prototypes[typeName]].kind.clonable) && initialized
      ensures w.Some? ==> (w.value in units && w.value !in old(units) && units == old(units)[w.value := units[w.value]] &&
        units[w.value].kind == old(units[prototypes[typeName]].kind) && units[w.value].alive &&
        tree.kids == old(tree.kids)[w.value := []][root := old(tree.kids[root]) + [w.value]])
      ensures w.None? ==> Added(old(units), units, old(tree.kids), tree.kids)
    {
      w := AddControllerOfType(typeName, initialized, Some(root));
    }

    /** `remove_controller(ptr)`: `remove_self` on a non-null controller. */
    method RemoveController(c: Option<int>)
      requires Distinct() && (c.Some? ==> c.value in units)
      modifies controllers
      ensures forall h :: h in units ==> units[h].name == old(units[h].name)
      ensures forall h :: h in units ==> units[h].alive == (old(units[h].alive) && c != Some(h))
    {
      if c.Some? {
        Strike(c.value);
      }
    }

    /** `remove_self` on the controller `h`: it alone dies. */
    method Strike(h: int)
      requires Distinct() && h in units
      modifies controllers
      ensures forall x :: x in units ==> units[x].name == old(units[x].name)
      ensures forall x :: x in units ==> units[x].alive == (old(units[x].alive) && x != h)
    {
      var u := units[h];
      assert u in controllers;
      u.RemoveSelf();
    }

    /** `remove_self` on every controller of `targets`. */
    method Kill(targets: seq<int>)
      requires Distinct() && forall i :: 0 <= i < |targets| ==> targets[i] in units
      modifies controllers
      ensures forall h :: h in units ==> units[h].name == old(units[h].name)
      ensures forall h :: h in units ==> units[h].alive == (old(units[h].alive) && h !in targets)
    {
      var i := 0;
      while i < |targets|
        invariant 0 <= i <= |targets|
        invariant forall h :: h in units ==> units[h].name == old(units[h].name)
        invariant forall h :: h in units ==> units[h].alive == (old(units[h].alive) && h !in targets[..i])
      {
        Strike(targets[i]);
        assert targets[..i + 1] == targets[..i] + [targets[i]];
        i := i + 1;
      }
      assert targets[..i] == targets;
    }

    /** `remove_controller(name)`: walk the tree from the root; a controller
        with that (non-empty) name is removed and the walk does not descend
        below it. Removal only clears the liveness flag. */
    method RemoveControllerByName(name: string)
      requires Valid()
      modifies controllers
      ensures Valid()
      ensures forall h :: h in units ==> units[h].name == old(units[h].name)
      ensures forall h :: h in units ==>
        units[h].alive == (old(units[h].alive) && h !in Struck(tree.kids, tree.rank, root, HasName(old(Names()), name)))
    {
      var matches := HasName(Names(), name);
      var log := tree.TransverseDepthFirst(Some(root), Not(matches));
      Kill(RemoveWhere(log, Not(matches)));
    }

    /** `remove_controller(id)` once the identifier reaches the test
        unchanged: as for a name, with the identifier as the test. */
    method RemoveControllerById(id: IdType)
      requires Valid()
      modifies controllers
      ensures Valid()
      ensures forall h :: h in units ==> units[h].name == old(units[h].name)
      ensures forall h :: h in units ==>
        units[h].alive == (old(units[h].alive) && h !in Struck(tree.kids, tree.rank, root, ValueIs(IdOf(), id)))
    {
      var matches := ValueIs(IdOf(), id);
      var log := tree.TransverseDepthFirst(Some(root), Not(matches));
      Kill(RemoveWhere(log, Not(matches)));
    }

    /** `remove_controller(id)` as written. Copying an `id_type` draws a
        fresh value: the by-value parameter draws one copy, `boost::bind`
        and the by-value visitor draw `copies` more (how many is fixed by
        boost's internals, which are not part of this model), and each
        controller's test draws two (see `Probe`). So each controller is
        compared with a new, never issued identifier, and no controller is
        removed while the counter has handed out at most 2^64 values. */
    method RemoveControllerByIdAsWritten(id: IdType, copies: nat)
      requires Valid()
      modifies ids, controllers
      ensures Valid()
      ensures forall h :: h in units ==> units[h].name == old(units[h].name)
      ensures |ids.issued| <= Modulus ==> |ids.issued| == |old(ids.issued)| + 1 + copies + 2 * |old(Everyone())|
      ensures |ids.issued| <= Modulus ==> forall h :: h in units ==> units[h].alive == old(units[h].alive)
    {
      var bound := DrawCopies(id, 1 + copies);
      var hits := ProbeTree(bound);
      Kill(hits);
    }

    /** `n` copies of `id`, each made from the one before. */
    method DrawCopies(id: IdType, n: nat) returns (copy: IdType)
      requires Valid()
      modifies ids
      ensures Valid() && |ids.issued| == |old(ids.issued)| + n
    {
      copy := id;
      var i := 0;
      while i < n
        invariant 0 <= i <= n && Valid() && |ids.issued| == |old(ids.issued)| + i
      {
        ghost var before := ids.issued;
        copy := ids.Copy(copy);
        SoundIssue(units, controllers, tree.kids.Keys, root, prototypes, before, copy.value);
        i := i + 1;
      }
    }

    /** The walk of `remove_controller(id)` as written, with `id` the
        identifier `boost::bind` holds: every controller is tested (see
        `Probe`), and the controllers found equal are listed. */
    method ProbeTree(id: IdType) returns (hits: seq<int>)
      requires Valid()
      modifies ids
      ensures Valid() && |ids.issued| == |old(ids.issued)| + 2 * |old(Everyone())|
      ensures forall i :: 0 <= i < |hits| ==> hits[i] in units
      ensures |ids.issued| <= Modulus ==> hits == []
    {
      var order := tree.TransverseDepthFirst(Some(root), Everything());
      VisitsAllTrue(tree.kids, tree.rank, root, Everything());
      hits := ProbeEach(id, order);
    }

    /** Tests each controller of `order` in turn against `id` as written, and
        lists the controllers found equal: none, while at most 2^64 values
        have been drawn. */
    method ProbeEach(id: IdType, order: seq<int>) returns (hits: seq<int>)
      requires Valid() && forall i :: 0 <= i < |order| ==> order[i] in units
      modifies ids
      ensures Valid() && |ids.issued| == |old(ids.issued)| + 2 * |order|
      ensures forall i :: 0 <= i < |hits| ==> hits[i] in units
      ensures |ids.issued| <= Modulus ==> hits == []
    {
      hits := [];
      var i := 0;
      while i < |order|
        invariant 0 <= i <= |order| && Valid() && |ids.issued| == |old(ids.issued)| + 2 * i
        invariant forall k :: 0 <= k < |hits| ==> hits[k] in units
        invariant |ids.issued| <= Modulus ==> hits == []
      {
        var probe := Probe(id, order[i]);
        if units[order[i]].id == probe {
          hits := hits + [order[i]];
        }
        i := i + 1;
      }
    }

    /** The test of the controller `h` against `id` as written: the test's
        by-value parameter draws a copy of `id`, and `controller->get_id() ==
        id` resolves to the free `operator==(unsigned long, id_type)`, whose
        by-value parameter draws a second copy. `h`'s identifier is compared
        with that second copy, a newly drawn value, which differs from it
        while at most 2^64 values have been drawn. */
    method Probe(id: IdType, h: int) returns (probe: IdType)
      requires Valid() && h in units
      modifies ids
      ensures Valid() && |ids.issued| == |old(ids.issued)| + 2 && probe.value == ids.issued[|ids.issued| - 1]
      ensures |ids.issued| <= Modulus ==> units[h].id != probe
    {
      var arg := ids.Copy(id);
      SoundIssue(units, controllers, tree.kids.Keys, root, prototypes, old(ids.issued), arg.value);
      ghost var before := ids.issued;
      probe := ids.Copy(arg);
      ids.Fresh(before, units[h].id.value);
      SoundIssue(units, controllers, tree.kids.Keys, root, prototypes, before, probe.value);
    }

    /** `find_controller(name)`: the first controller in pre-order from the
        root whose name is non-empty and equal to `name`. */
    method FindControllerByName(name: string) returns (found: Option<int>)
      requires Valid()
      ensures found == First(Everyone(), HasName(Names(), name))
      ensures found.Some? ==> found.value in units && units[found.value].name == name && name != ""
    {
      ghost var tested;
      found, tested := tree.DepthFirstSearch(Some(root), HasName(Names(), name));
      if found.Some? {
        FirstMatches(Everyone(), HasName(Names(), name));
      }
    }

    /** `find_controller(id)` once the identifier reaches the test
        unchanged: the first controller in pre-order with identifier `id`. */
    method FindControllerById(id: IdType) returns (found: Option<int>)
      requires Valid()
      ensures found == First(Everyone(), ValueIs(IdOf(), id))
      ensures found.Some? ==> found.value in units && units[found.value].id == id
    {
      ghost var tested;
      found, tested := tree.DepthFirstSearch(Some(root), ValueIs(IdOf(), id));
      if found.Some? {
        FirstMatches(Everyone(), ValueIs(IdOf(), id));
      }
    }

    /** `find_controller(id)` as written: the search takes `id` by
        reference, but every test draws two copies of it (see `Probe`), so
        every controller is compared with a freshly drawn identifier, the
        whole tree is searched, and nothing is found while at most 2^64
        values have been drawn. */
    method FindControllerByIdAsWritten(id: IdType) returns (found: Option<int>)
      requires Valid()
      modifies ids
      ensures Valid()
      ensures found.None? ==> |ids.issued| == |old(ids.issued)| + 2 * |old(Everyone())|
      ensures |ids.issued| <= Modulus ==> found.None?
    {
      var order := tree.TransverseDepthFirst(Some(root), Everything());
      VisitsAllTrue(tree.kids, tree.rank, root, Everything());
      var i := 0;
      while i < |order|
        invariant 0 <= i <= |order| && Valid() && |ids.issued| == |old(ids.issued)| + 2 * i
      {
        var probe := Probe(id, order[i]);
        if units[order[i]].id == probe {
          return Some(order[i]);
        }
        i := i + 1;
      }
      return None;
    }

    /** `find_controllers(name, list)`: appends, in pre-order, every
        controller whose name equals `name` (even the empty name). */
    method FindControllers(name: string, list: seq<int>) returns (list': seq<int>)
      requires Valid()
      ensures list' == list + RemoveWhere(Everyone(), Not(ValueIs(Names(), name)))
    {
      var order := tree.TransverseDepthFirst(Some(root), Everything());
      VisitsAllTrue(tree.kids, tree.rank, root, Everything());
      list' := list + RemoveWhere(order, Not(ValueIs(Names(), name)));
    }

    /** `find_controllers_by_type(type, list)`: appends, in pre-order, every
        controller whose type is `type`. */
    method FindControllersByType(typeName: string, list: seq<int>) returns (list': seq<int>)
      requires Valid()
      ensures list' == list + RemoveWhere(Everyone(), Not(ValueIs(Types(), typeName)))
    {
      var order := tree.TransverseDepthFirst(Some(root), Everything());
      VisitsAllTrue(tree.kids, tree.rank, root, Everything());
      list' := list + RemoveWhere(order, Not(ValueIs(Types(), typeName)));
    }

    /** `create_flat_list(list)`: appends every controller in pre-order. */
    method CreateFlatList(list: seq<int>) returns (list': seq<int>)
      requires Valid()
      ensures list' == list + Everyone()
    {
      var order := tree.TransverseDepthFirst(Some(root), Everything());
      VisitsAllTrue(tree.kids, tree.rank, root, Everything());
      list' := list + order;
    }

    /** `step`: the control pass over the tree from the root (a controller
        whose `control()` is false keeps its children from being
        controlled), then message delivery, then `remove_if` of the dead
        children. User code decides, per controller, what its `control()`
        returns (`control`), whether it calls `remove_self` (`quits`) and
        which messages it queues (`posts`), and, per `handle_message` call,
        whether the recipient calls `remove_self` (`leaves`); the root keeps
        the default `control()` and `handle_message`, so it neither queues
        nor removes itself, whatever these say of it; `env` is the
        state the parcels' conditions read. Returns the controllers in the
        order their `control()` ran and the `handle_message` calls made.
        A controller that removed itself during the step is unlinked by the
        same step. */
    method Step(control: int -> bool, quits: int -> bool, posts: int -> seq<Post>,
                leaves: Delivery -> bool, env: Env) returns (controlled: seq<int>, delivered: seq<Delivery>)
      requires Valid()
      modifies tree, mailbox, controllers
      ensures Valid() && units == old(units) && prototypes == old(prototypes)
      ensures controlled == Visits(old(tree.kids), old(tree.rank), root, Controls(control, root))
      ensures forall h :: h in units ==> units[h].name == old(units[h].name)
      ensures var quitters := RemoveWhere(controlled, Not(Quits(quits, root)));
        forall h :: h in units ==>
          (units[h].alive <==> old(units[h].alive) && h !in quitters && h !in Leavers(delivered, LeavesOf(leaves, root)))
      ensures units[root].alive == old(units[root].alive)
      ensures var queued := old(mailbox.messages) + Posted(RemoveWhere(controlled, Is(root)), posts);
        mailbox.messages == Flushed(queued, env, Preorder(old(tree.kids), old(tree.rank), root), old(Profiles())) &&
        delivered == Delivered(queued, env, Preorder(old(tree.kids), old(tree.rank), root), old(Profiles()))
      ensures var quitters := RemoveWhere(controlled, Not(Quits(quits, root)));
        tree.kids == Pruned(old(tree.kids), old(tree.rank), root,
                            ShouldRemove(Survivors(old(Alive()), quitters, Leavers(delivered, LeavesOf(leaves, root)))))
    {
      var info := Profiles();
      var before := Alive();
      controlled := ControlPass(control, quits, posts);
      var quitters := RemoveWhere(controlled, Not(Quits(quits, root)));
      assert root !in quitters;
      delivered := FinishStep(env, info, leaves, before, quitters);
      PostedSkipsRoot(controlled, posts, root);
      RootNeverLeaves(delivered, leaves, root);
    }

    /** The rest of `step` once the control pass has removed `quitters`:
        delivery, then the removal pass on the liveness flags that result
        (`before` were those on entry to the step). */
    method FinishStep(env: Env, info: int -> Profile, leaves: Delivery -> bool,
                      before: map<int, bool>, quitters: seq<int>) returns (delivered: seq<Delivery>)
      requires Valid()
      modifies tree, mailbox, controllers
      ensures Valid() && units == old(units) && prototypes == old(prototypes)
      ensures forall h :: h in units ==> units[h].name == old(units[h].name)
      ensures forall h :: h in units ==> (units[h].alive <==> old(units[h].alive) && h !in Leavers(delivered, LeavesOf(leaves, root)))
      ensures mailbox.messages == Flushed(old(mailbox.messages), env, old(Everyone()), info)
      ensures delivered == Delivered(old(mailbox.messages), env, old(Everyone()), info)
      ensures tree.kids == Pruned(old(tree.kids), old(tree.rank), root, ShouldRemove(Survivors(before, quitters, Leavers(delivered, LeavesOf(leaves, root)))))
    {
      delivered := DeliveryPass(env, info, leaves);
      RemoveDead(Survivors(before, quitters, Leavers(delivered, LeavesOf(leaves, root))));
    }

    /** The control pass of `step`: `control()` on every controller the
        walk reaches, in walk order; those whose `control()` calls
        `remove_self` die, and the messages they queue go last in the
        queue. */
    method ControlPass(control: int -> bool, quits: int -> bool, posts: int -> seq<Post>) returns (controlled: seq<int>)
      requires Valid()
      modifies mailbox, controllers
      ensures Valid() && units == old(units) && prototypes == old(prototypes)
      ensures controlled == Visits(tree.kids, tree.rank, root, Controls(control, root))
      ensures forall h :: h in units ==> units[h].name == old(units[h].name)
      ensures forall h :: h in units ==>
        (units[h].alive <==> old(units[h].alive) && h !in RemoveWhere(controlled, Not(Quits(quits, root))))
      ensures mailbox.messages == old(mailbox.messages) + Posted(controlled, PostsOf(posts, root))
    {
      controlled := tree.TransverseDepthFirst(Some(root), Controls(control, root));
      ghost var before := (units, prototypes);
      Kill(RemoveWhere(controlled, Not(Quits(quits, root))));
      assert (units, prototypes) == before;
      PostAll(controlled, PostsOf(posts, root));
    }

    /** The delivery pass of `step` followed by the `remove_self` calls the
        `handle_message` calls make. */
    method DeliveryPass(env: Env, info: int -> Profile, leaves: Delivery -> bool) returns (delivered: seq<Delivery>)
      requires Valid()
      modifies mailbox, controllers
      ensures Valid() && units == old(units) && prototypes == old(prototypes)
      ensures mailbox.messages == Flushed(old(mailbox.messages), env, Everyone(), info)
      ensures delivered == Delivered(old(mailbox.messages), env, Everyone(), info)
      ensures forall h :: h in units ==> units[h].name == old(units[h].name)
      ensures forall h :: h in units ==> (units[h].alive <==> old(units[h].alive) && h !in Leavers(delivered, LeavesOf(leaves, root)))
    {
      ghost var queued := mailbox.messages;
      delivered := DeliverAll(env, info);
      forall d | d in delivered ensures d.recipient in units {
        DeliveredRecipient(queued, env, Everyone(), info, d);
      }
      var leavers := Leavers(delivered, LeavesOf(leaves, root));
      forall i | 0 <= i < |leavers| ensures leavers[i] in units {
        assert leavers[i] in leavers;
        var d :| d in delivered && d.recipient == leavers[i];
      }
      Kill(leavers);
    }

    /** The messages queued by the `control()` calls of `order`, in that
        order, through the send overloads. */
    method PostAll(order: seq<int>, posts: int -> seq<Post>)
      requires Valid()
      modifies mailbox
      ensures Valid() && mailbox.messages == old(mailbox.messages) + Posted(order, posts)
    {
      var all := Posted(order, posts);
      var j := 0;
      while j < |all|
        invariant 0 <= j <= |all| && Valid()
        invariant mailbox.messages == old(mailbox.messages) + all[..j]
      {
        mailbox.AddMessage(Some(all[j]));
        assert all[..j + 1] == all[..j] + [all[j]];
        j := j + 1;
      }
      assert all[..j] == all;
    }

    /** The delivery pass of `step`: `send_messages` with the controllers
        in pre-order from the root; `info` is what the recipient tests see
        of each controller. */
    method DeliverAll(env: Env, info: int -> Profile) returns (delivered: seq<Delivery>)
      requires Valid()
      modifies mailbox
      ensures Valid() && units == old(units) && prototypes == old(prototypes)
      ensures mailbox.messages == Flushed(old(mailbox.messages), env, old(Everyone()), info)
      ensures delivered == Delivered(old(mailbox.messages), env, old(Everyone()), info)
    {
      var order := tree.TransverseDepthFirst(Some(root), Everything());
      VisitsAllTrue(tree.kids, tree.rank, root, Everything());
      delivered := mailbox.SendMessages(order, info, env);
    }

    /** The removal pass of `step`: `remove_if` from the root with
        `should_remove` on the liveness flags `alive`, so every dead
        controller below the root is unlinked together with its subtree. */
    method RemoveDead(alive: map<int, bool>)
      requires Valid()
      modifies tree
      ensures Valid() && units == old(units) && prototypes == old(prototypes)
      ensures mailbox.messages == old(mailbox.messages) && tree.rank == old(tree.rank)
      ensures tree.kids == Pruned(old(tree.kids), old(tree.rank), root, ShouldRemove(alive))
      ensures unchanged(controllers)
    {
      ghost var tested := tree.RemoveIf(Some(root), ShouldRemove(alive));
    }

    /** The parcel overloads of `send_message` and `send_message_to_all`:
        a null sender is ignored; otherwise a message for `to` goes last in
        the queue. */
    method SendParcel(sender: Option<int>, to: Recipient, parcel: Parcel)
      requires Valid()
      modifies mailbox
      ensures Valid()
      ensures sender.None? ==> mailbox.messages == old(mailbox.messages)
      ensures sender.Some? ==> mailbox.messages == old(mailbox.messages) + [NewMessage(sender, to, parcel)]
    {
      if sender.None? {
        return;
      }
      mailbox.AddMessage(Some(NewMessage(sender, to, parcel)));
    }

    /** The overloads taking a message and a parameter list: a null sender
        is ignored; otherwise an immediate parcel with those parameters. */
    method SendParameters(sender: Option<int>, to: Recipient, message: Param, params: ParamList)
      requires Valid()
      modifies mailbox
      ensures Valid()
      ensures sender.None? ==> mailbox.messages == old(mailbox.messages)
      ensures sender.Some? ==> (mailbox.messages ==
        old(mailbox.messages) + [NewMessage(sender, to, WithParameters(message, params))])
    {
      if sender.None? {
        return;
      }
      mailbox.AddMessage(Some(NewMessage(sender, to, WithParameters(message, params))));
    }

    /** The overloads taking a single message: no null check, so a message
        with a null sender is queued too. Returns the queue slot of the
        parcel, which the caller may extend with `ChainParameter`. */
    method SendParameter(sender: Option<int>, to: Recipient, message: Param) returns (slot: nat)
      requires Valid()
      modifies mailbox
      ensures Valid()
      ensures mailbox.messages == old(mailbox.messages) + [NewMessage(sender, to, Simple(message))]
      ensures slot == |old(mailbox.messages)| && slot < |mailbox.messages|
    {
      mailbox.AddMessage(Some(NewMessage(sender, to, Simple(message))));
      slot := |mailbox.messages| - 1;
    }

    /** `operator()` on the parcel a single-message overload returned. */
    method ChainParameter(slot: nat, param: Param)
      requires Valid() && slot < |mailbox.messages|
      modifies mailbox
      ensures Valid()
      ensures mailbox.messages == old(mailbox.messages)[slot := old(mailbox.messages[slot]).(
        parcel := Chain(old(mailbox.messages[slot].parcel), param))]
    {
      mailbox.ChainParameter(slot, param);
    }
  }

  /** The controllers a removal walk from `n` strikes: it visits the tree
      with the visitor "does not match", so it removes each visited
      controller that matches and does not descend below it. */
  ghost function Struck(k: Kids, r: Rank, n: int, m: int -> bool): (s: seq<int>)
    requires Ranked(k, r) && n in k
  {
    RemoveWhere(Visits(k, r, n, Not(m)), Not(m))
  }

  /** A controller is struck exactly when the walk reaches it and it
      matches; nothing below a struck controller is reached, so a match
      inside the subtree of a struck controller survives. */
  lemma StruckMember(k: Kids, r: Rank, parent: map<int, int>, n: int, m: int -> bool, x: int)
    requires Ranked(k, r) && Consistent(k, parent) && n in k
    ensures x in Struck(k, r, n, m) <==> x in Visits(k, r, n, Not(m)) && m(x)
    ensures x in Struck(k, r, n, m) ==>
      forall y :: y in Preorder(k, r, x) && y != x ==> y !in Visits(k, r, n, Not(m)) && y !in Struck(k, r, n, m)
  {
    var v := Visits(k, r, n, Not(m));
    if x in v && m(x) {
      var i :| 0 <= i < |v| && v[i] == x;
      assert x in Struck(k, r, n, m);
    }
    if x in Struck(k, r, n, m) {
      forall y | y in Preorder(k, r, x) && y != x ensures y !in v && y !in Struck(k, r, n, m) {
        VisitsSkipBelow(k, r, parent, n, Not(m), x, y);
      }
    }
  }

  /** The liveness flags after the two passes of `step`: alive before, and
      removed neither by its own `control()` (`quitters`) nor during one of
      its `handle_message` calls (`leavers`). */
  function Survivors(alive: map<int, bool>, quitters: seq<int>, leavers: seq<int>): (m: map<int, bool>)
    ensures m.Keys == alive.Keys
    ensures forall h :: h in alive ==> m[h] == (alive[h] && h !in quitters && h !in leavers)
  {
    map h | h in alive :: alive[h] && h !in quitters && h !in leavers
  }

  /** A controller that removes itself from inside its `control()` is gone
      at the end of the same `step`: if the control pass reaches it, it is
      not reachable from the root once the step has pruned the tree. */
  lemma {:induction false} QuittersUnlinked(k: Kids, r: Rank, root: int, alive: map<int, bool>,
                                             control: int -> bool, quits: int -> bool, leavers: seq<int>, h: int)
    requires Ranked(k, r) && root in k
    requires h in Visits(k, r, root, Controls(control, root)) && h != root && quits(h)
    ensures var quitters := RemoveWhere(Visits(k, r, root, Controls(control, root)), Not(Quits(quits, root)));
      Ranked(Pruned(k, r, root, ShouldRemove(Survivors(alive, quitters, leavers))), r) &&
      h !in Preorder(Pruned(k, r, root, ShouldRemove(Survivors(alive, quitters, leavers))), r, root)
  {
    var controlled := Visits(k, r, root, Controls(control, root));
    var quitters := RemoveWhere(controlled, Not(Quits(quits, root)));
    var i :| 0 <= i < |controlled| && controlled[i] == h;
    assert h in quitters;
    DeadAreUnlinked(k, r, root, Survivors(alive, quitters, leavers), h);
  }

  /** `remove_if` with `should_remove` unlinks every dead controller: a
      controller other than the root whose flag is false (or that is
      missing) is not reachable from the root afterwards. */
  lemma DeadAreUnlinked(k: Kids, r: Rank, root: int, alive: map<int, bool>, h: int)
    requires Ranked(k, r) && root in k && h != root && (h !in alive || !alive[h])
    ensures Ranked(Pruned(k, r, root, ShouldRemove(alive)), r)
    ensures h !in Preorder(Pruned(k, r, root, ShouldRemove(alive)), r, root)
  {
    PrunedReach(k, r, root, ShouldRemove(alive), h);
  }

  /** What `First` finds satisfies the test. */
  lemma FirstMatches(s: seq<int>, p: int -> bool)
    requires First(s, p).Some?
    ensures First(s, p).value in s && p(First(s, p).value)
  {
  }
}
