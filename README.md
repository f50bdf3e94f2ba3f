# ncc controller scheduling core, in Dafny

This project models the core of the ncc game library, covering the following parts.

- **Controller manager.** It owns a root controller, a map of prototypes to clone new controllers from, and a message queue. Every controller is a node of one ownership tree below the root.
  - Each `step` does three things in order. It walks the tree and calls every controller's `control()`; a `false` answer keeps that controller's children from being controlled. It then delivers the queued messages that are ready. Finally it unlinks every controller that has been marked dead, together with its subtree.
- **Generic tree.** It provides:
  - child lists that refuse null and duplicate children;
  - a pre-order search;
  - a pre-order walk whose visitor can prune;
  - `remove_if`, which unlinks matching children and descends only into the others.
- **Identifiers.** They are drawn from a process-wide `unsigned long` counter.
- **Parameters.** A parameter is a value of any type, and a parcel is a message with its parameters and a send condition.
- **Three small containers:**
  - a data cache;
  - a property manager whose reads insert the default value;
  - an object manager that keeps a set of shared objects and updates them once per step.

How it is modelled:

- Tree nodes live in an arena (`Tree.Forest`) and are named by integer handles. A ghost rank proves the structure acyclic, which the source's recursive traversals rely on.
- Each operation that changes state is a method on a class holding that state. Its contract ties the new state to a specification function: `Preorder`, `Visits`, `Pruned`, `Flushed`, `Replay`, `Insert` or `Erase`. Lemmas then prove what those functions mean.
- User code enters as parameters:
  - a controller's `initialize`, `control` and `clone_prototype`;
  - what the recipient tests see of each controller;
  - the program state that send conditions read.

Places where the code and its own comments disagree (the model follows the code):

- The root controller's name is empty, although the comment on `simple_root_controller` says its name is "root".
- `message_sent` purges a message whose sender pointer is null. It does not check whether the sender has died.

## Model

| member | source | states |
|---|---|---|
| `Tree.Forest.NewNode` | source/library/include/elements/tree.h:91 | a new node has no parent and no children, is in no child list, and every existing node keeps its children |
| `Tree.Forest.AddChild` | source/library/include/elements/tree.h:116-128 | succeeds exactly when the child is non-null and not already in the list; then it goes last and its parent is set; on failure nothing changes; the tree stays acyclic, linked and free of duplicates |
| `Tree.Forest.AttachChild` | source/library/include/elements/tree.h:122-127 | appending a child that is in no list and not above the parent keeps the tree acyclic, linked and free of duplicates |
| `Tree.Forest.RemoveChild` | source/library/include/elements/tree.h:129-145 | returns true exactly when the child was in the list; then exactly that entry is erased and the others keep their order; afterwards the child is not in the list |
| `Tree.Forest.DepthFirstSearch` | source/library/include/elements/tree.h:148-163 | null root gives null; otherwise the result is the first node in pre-order satisfying the predicate; the predicate is asked of a prefix of the pre-order that ends at the match, or of the whole pre-order when nothing matches |
| `Tree.Forest.Search` | source/library/include/elements/tree.h:154-162 | the recursive search from a node: first match in that node's pre-order, and the nodes tested form a prefix ending at the match |
| `Tree.Forest.TransverseDepthFirst` | source/library/include/elements/tree.h:165-177 | null root visits nothing; otherwise the nodes are visited in pre-order, skipping the subtrees below a node whose visit returned false |
| `Tree.Forest.Walk` | source/library/include/elements/tree.h:171-176 | the recursive walk from a node produces that pruned pre-order |
| `Tree.Forest.RemoveIf` | source/library/include/elements/tree.h:179-197 | null root changes nothing; otherwise the new child lists are `Pruned`, and `should_remove` is asked exactly of `Tested`, in walk order |
| `Tree.Forest.Prune` | source/library/include/elements/tree.h:185-196 | the recursive removal from a node: each child is erased if it matches and pruned recursively if not; parents and ranks are unchanged |
| `Tree.Forest.ChildrenSize` | source/library/include/elements/tree.h:108 | the number of children of the node |
| `Tree.VisitsMember` | source/library/include/elements/tree.h:165-177 | a node is visited exactly when it is the root or a child of a visited node whose visit returned true |
| `Tree.VisitsSkipBelow` | source/library/include/elements/tree.h:171-172 | no node strictly below a node whose visit returned false is visited |
| `Tree.VisitsInPreorder` | source/library/include/elements/tree.h:165-177 | every visited node is in the pre-order of the root |
| `Tree.VisitsAllTrue` | source/library/include/elements/tree.h:165-177 | with a visitor that always returns true, the walk is the whole pre-order |
| `Tree.SubtreesDisjoint` | source/library/include/elements/tree.h:120-126 | in a linked tree, the subtrees of two different children of a node share no node |
| `Tree.TestedMember` | source/library/include/elements/tree.h:186-194 | `should_remove` is never asked of the root, and is asked of a node exactly when it is a child of a node that survives |
| `Tree.PrunedReach` | source/library/include/elements/tree.h:179-197 | after `remove_if`, a node is reachable from the root exactly when it survives: it is the root, or it does not match and its parent survives |
| `Tree.ConstChildrenAsWritten` | source/library/include/elements/tree.h:104 | as written, a const walk from `children_begin` to `children_end` over a node with children sees none of them |
| `Tree.ConstChildrenEnd` | source/library/include/elements/tree.h:103 | corrected: the walk from `children_begin` to `children_end` covers the whole child list |
| `Lists.Find` | source/library/include/elements/tree.h:138 | `std::find`: the first position holding the element, or the end exactly when the element is absent |
| `Ids.IdGenerator.constructor` | source/library/include/elements/id.h:80 | the counter starts at its initial value and nothing has been issued |
| `Ids.IdGenerator.CreateId` | source/library/include/elements/id.h:77 | issues the counter's value and then increments it modulo 2^64 |
| `Ids.IdGenerator.Construct` | source/library/include/elements/id.h:48 | a constructed identifier takes the next value from the counter |
| `Ids.IdGenerator.Copy` | source/library/include/elements/id.h:54 | a copy takes the next value from the counter, so it differs from its original while fewer than 2^64 values have been issued |
| `Ids.IdGenerator.Assign` | source/library/include/elements/id.h:58 | an assignment draws a new value instead of copying, so the result differs from the right-hand side while fewer than 2^64 values have been issued |
| `Ids.IssuedCompare` | source/library/include/elements/id.h:65-77 | identifiers drawn from the counter compare by draw: the member `==` holds exactly for the same draw and `!=` otherwise while at most 2^64 values have been drawn; `<` follows the draw order until the counter wraps |
| `Ids.IssuedAreRun` | source/library/include/elements/id.h:77-80 | the issued values are consecutive modulo 2^64; they are pairwise distinct until the counter wraps, and increasing while it has not reached the top |
| `Ids.RunDistinct` | source/library/include/elements/id.h:77 | at most 2^64 consecutive counter values are pairwise distinct |
| `Ids.RunIncreasing` | source/library/include/elements/id.h:77 | consecutive counter values below the top are strictly increasing |
| `Parameters.Default` | source/library/include/elements/parameter.h:109 | the default-constructed value has the requested type |
| `Parameters.Create` | source/library/include/elements/parameter.h:118-122 | the parameter holds the value's type and no other type |
| `Parameters.Get` | source/library/include/elements/parameter.h:103-110 | a parameter of the requested type gives back the value it holds; any other parameter gives the type's default value |
| `Parameters.GetInto` | source/library/include/elements/parameter.h:80-89 | succeeds exactly when the parameter holds that type; on success the result is the held value, on failure it is untouched |
| `Parameters.GetCreate` | source/library/include/elements/parameter.h:103-122 | round trip: getting a created value with its own type returns it; with another type, the default |
| `Parameters.Parameters` | source/library/include/elements/parameter.h:138-250 | builds a list of 1 to 14 parameters, one per value in order, each giving its value back |
| `ControllerUnit.Unit.constructor` | source/library/include/controller/controller_interface.h:127 | a new controller has an empty name and is alive |
| `ControllerUnit.Unit.GetType` | source/library/include/controller/controller_interface.h:70 | the type name of the controller's class: its `Kind`'s, which is "" for a class that does not override `get_type` and "root" for the root |
| `ControllerUnit.Unit.GetTypeId` | source/library/include/controller/controller_interface.h:72 | the type id of the controller's class: its `Kind`'s, which is -1 for a class that does not override `get_type_id` and 0 for the root |
| `ControllerUnit.Unit.GetName` | source/library/include/controller/controller_interface.h:97 | the current name |
| `ControllerUnit.Unit.SetName` | source/library/include/controller/controller_interface.h:100 | the name becomes the value; liveness is unchanged; this is one `SetNameCall` step of `Apply` |
| `ControllerUnit.Unit.IsAlive` | source/library/include/controller/controller_interface.h:119 | the liveness flag |
| `ControllerUnit.Unit.RemoveSelf` | source/library/include/controller/controller_interface.h:143 | the controller is dead; its name is unchanged; this is one `RemoveSelfCall` step of `Apply` |
| `ControllerUnit.Unit.HandleMessage` | source/library/include/controller/controller_interface.h:84 | the default handler changes neither name nor liveness |
| `ControllerUnit.LivenessMonotone` | source/library/include/controller/controller_interface.h:119-146 | after any sequence of `set_name` and `remove_self` calls (as `Unit.SetName` and `Unit.RemoveSelf` perform them), a controller is alive exactly when it was alive before and `remove_self` was never called |
| `ControllerUnit.NameIsLastSet` | source/library/include/controller/controller_interface.h:97-100 | the name is the one last set |
| `Messages.NegationReleases` | source/library/include/controller/message.h:231-235 | a parcel conditioned on `is_not(c)` is released exactly when the same parcel conditioned on `c` is not; a double negation releases exactly when `c` holds |
| `Messages.Simple` | source/library/include/controller/message.h:93-97 | the parcel has no parameters and is sent immediately |
| `Messages.WithCondition` | source/library/include/controller/message.h:104-108 | the parcel has no parameters and is sent on its condition |
| `Messages.WithParameters` | source/library/include/controller/message.h:115-119 | the parcel carries the parameters and is sent immediately |
| `Messages.WithParametersAndCondition` | source/library/include/controller/message.h:131-135 | the parcel carries the parameters and is sent on its condition |
| `Messages.Chain` | source/library/include/controller/message.h:159 | appends one parameter; the message and timing are kept |
| `Messages.ConstructorsSend` | source/library/include/controller/message.h:93-145 | a parcel without a condition is always ready; one with a condition is ready exactly when the condition holds |
| `Messages.ChainAllAppends` | source/library/include/controller/message.h:147-159 | chaining a list of parameters appends them in order and never changes when the parcel is sent |
| `Messages.ChainBuildsParameters` | source/library/include/controller/message.h:147-159 | chaining parameters onto a simple parcel gives the parcel built from the message and that list |
| `MessageQueue.NewMessage` | source/library/include/controller/message_manager.h:66-72 | a new message keeps its sender, recipient test and parcel, and is not sent |
| `MessageQueue.ReadyMember` | source/library/src/controller/message_manager.cpp:77-89 | a queue position is ready exactly when its parcel's `send()` is true |
| `MessageQueue.DeliveriesAtMember` | source/library/src/controller/message_manager.cpp:42-63 | at a controller, `handle_message` is called for exactly the ready messages it is a recipient of that have a sender |
| `MessageQueue.DeliveryLogMember` | source/library/src/controller/message_manager.cpp:47-93 | over a walk, a call is made exactly for a visited recipient of a ready message that has a sender |
| `MessageQueue.StaysQueued` | source/library/src/controller/message_manager.cpp:71-96 | a message stays queued exactly when it has a sender and was not both ready and received by someone |
| `MessageQueue.NegatedPairReady` | source/library/src/controller/message_manager.cpp:77-89 | of two queued messages conditioned on `c` and on `is_not(c)`, a flush finds exactly one ready: the first when `c` holds, the second otherwise |
| `MessageQueue.DeliveredRecipient` | source/library/src/controller/message_manager.cpp:82-93 | every `handle_message` call of a flush goes to a controller of the walk |
| `MessageQueue.NothingReadyKeepsQueue` | source/library/src/controller/message_manager.cpp:90 | when no message is ready the queue is left as it is |
| `MessageQueue.MessageManager.AddMessage` | source/library/src/controller/message_manager.cpp:37-40 | a null message is ignored; any other goes last |
| `MessageQueue.MessageManager.ChainParameter` | source/library/include/controller/message.h:159 | appends a parameter to the parcel of one queued message; nothing else changes |
| `MessageQueue.MessageManager.CollectReady` | source/library/src/controller/message_manager.cpp:77-89 | the positions of the ready messages, in queue order |
| `MessageQueue.MessageManager.DeliverAt` | source/library/src/controller/message_manager.cpp:47-69 | the calls at one controller, and the sent flags of the messages it received |
| `MessageQueue.MessageManager.PurgeSent` | source/library/src/controller/message_manager.cpp:71-96 | removes the sent messages and those with a null sender, keeping the order of the rest |
| `MessageQueue.MessageManager.SendMessages` | source/library/src/controller/message_manager.cpp:82-97 | the queue afterwards is `Flushed` and the calls made are `Delivered`, for the controllers in walk order |
| `ControllerManager.Manager.constructor` | source/library/src/controller/controller_manager.cpp:36-39 | a tree holding only the root controller, which is alive with an empty name; no prototypes; an empty queue |
| `ControllerManager.Manager.NewController` | source/library/include/controller/controller_interface.h:127 | a new controller gets a new node outside the tree and an identifier not issued before; it has an empty name and is alive |
| `ControllerManager.Manager.AddController` | source/library/src/controller/controller_manager.cpp:48-52 | a null controller or a null parent changes nothing; otherwise the parent's `add_child` |
| `ControllerManager.Manager.AddControllerToRoot` | source/library/src/controller/controller_manager.cpp:40-43 | the same, with the root as the parent |
| `ControllerManager.Manager.AddInitializedController` | source/library/src/controller/controller_manager.cpp:53-60 | as `add_controller`, but nothing is attached when `initialize` fails |
| `ControllerManager.Manager.AddPrototype` | source/library/src/controller/controller_manager.cpp:61-64 | binds the name to the prototype unless the prototype is null or the name empty |
| `ControllerManager.Manager.FindPrototype` | source/library/src/controller/controller_manager.cpp:66-70 | the prototype registered under the type, or null exactly when there is none |
| `ControllerManager.Manager.CloneAndInitialize` | source/library/src/controller/controller_manager.cpp:80-86 | gives a new alive controller of the prototype's kind exactly when the prototype can clone and the clone initializes; the clone is not in the tree |
| `ControllerManager.Manager.CreateController` | source/library/src/controller/controller_manager.cpp:72-87 | corrected: null for an unknown type, a prototype that cannot clone, or a failed `initialize`; otherwise a new controller; prototypes are unchanged |
| `ControllerManager.Manager.CreateControllerAsWritten` | source/library/src/controller/controller_manager.cpp:72-78 | as written: throws for a type without a prototype; otherwise returns as the corrected version does |
| `ControllerManager.Manager.AddControllerOfType` | source/library/src/controller/controller_manager.cpp:94-100 | corrected (built on the corrected `CreateController`, Findings row 4): a new controller goes last among the parent's children exactly when the parent is non-null and creation succeeds; otherwise the result is null and the tree from any old node is unchanged |
| `ControllerManager.Manager.Attach` | source/library/src/controller/controller_manager.cpp:97 | a newly created controller goes last in its parent's list |
| `ControllerManager.Manager.AddControllerOfTypeToRoot` | source/library/src/controller/controller_manager.cpp:89-92 | corrected, as `AddControllerOfType` (Findings row 4): the same, below the root |
| `ControllerManager.Manager.RemoveController` | source/library/src/controller/controller_manager.cpp:134-137 | exactly the given non-null controller dies; names are unchanged |
| `ControllerManager.Manager.RemoveControllerByName` | source/library/src/controller/controller_manager.cpp:102-116 | the controllers that die are exactly those the walk strikes: visited controllers with that non-empty name, the walk not descending below them |
| `ControllerManager.Manager.RemoveControllerById` | source/library/src/controller/controller_manager.cpp:119-132 | corrected: the same, matching on the identifier |
| `ControllerManager.Manager.RemoveControllerByIdAsWritten` | source/library/src/controller/controller_manager.cpp:119-132 | as written: the by-value parameter, the bound copies and two copies per tested controller are drawn, every controller is tested, and no controller dies, while at most 2^64 identifiers have been drawn |
| `ControllerManager.Manager.DrawCopies` | source/library/src/controller/controller_manager.cpp:129-131 | the copies made on the way into the walk each draw one identifier |
| `ControllerManager.Manager.ProbeTree` | source/library/src/controller/controller_manager.cpp:131 | the walk tests every controller, drawing two identifiers per test, and finds none equal before the wrap |
| `ControllerManager.Manager.Probe` | source/library/src/controller/controller_manager.cpp:119-121 | one test draws two copies: the test's by-value parameter, and the by-value parameter of the free `operator==(unsigned long, id_type)` declared at elements/id.h:86; the controller's identifier differs from the second copy while at most 2^64 values have been drawn |
| `ControllerManager.Manager.ProbeEach` | source/library/src/controller/controller_manager.cpp:119-131 | two fresh copies per tested controller; no controller matches while at most 2^64 values have been drawn |
| `ControllerManager.Manager.FindControllerByName` | source/library/src/controller/controller_manager.cpp:139-151 | the first controller in pre-order with that non-empty name |
| `ControllerManager.Manager.FindControllerById` | source/library/src/controller/controller_manager.cpp:152-156 | corrected: the first controller in pre-order with that identifier |
| `ControllerManager.Manager.FindControllerByIdAsWritten` | source/library/src/controller/controller_manager.cpp:144-156 | as written: two identifiers are drawn per tested controller, the whole tree is tested, and nothing is found while at most 2^64 identifiers have been drawn |
| `ControllerManager.Manager.FindControllers` | source/library/src/controller/controller_manager.cpp:158-167 | appends, in pre-order, every controller with that name, the empty name included |
| `ControllerManager.Manager.FindControllersByType` | source/library/src/controller/controller_manager.cpp:169-178 | appends, in pre-order, every controller of that type |
| `ControllerManager.Manager.CreateFlatList` | source/library/src/controller/controller_manager.cpp:180-189 | appends every controller in pre-order |
| `ControllerManager.Manager.Step` | source/library/src/controller/controller_manager.cpp:201-209 | control runs in the pruned pre-order; a controller dies exactly when it was dead, or its `control()` or one of its `handle_message` calls made `remove_self`; the root, which keeps the default `control()` and `handle_message`, stays as alive as it was; the queue gains the messages the other controllers' `control()` calls posted, in call order, and is flushed over the whole pre-order; then the tree is pruned by those liveness flags |
| `ControllerManager.Manager.ControlPass` | source/library/src/controller/controller_manager.cpp:191-204 | the controllers in walk order; those whose `control()` calls `remove_self` die; the messages their `control()` calls post go last in the queue, none from the root |
| `ControllerManager.Manager.PostAll` | source/library/src/controller/message_manager.cpp:37-40 | the messages posted during the control pass are appended in call order |
| `ControllerManager.Manager.DeliveryPass` | source/library/src/controller/controller_manager.cpp:206 | delivery over the pre-order; exactly the recipients other than the root whose `handle_message` calls `remove_self` die |
| `ControllerManager.Manager.FinishStep` | source/library/src/controller/controller_manager.cpp:206-208 | delivery, then the tree is pruned by the liveness flags that result from the whole step |
| `ControllerManager.Quits` | source/library/include/controller/controller_interface.h:143-147 | the root's default `control()` never calls `remove_self`; another controller's does as user code says |
| `ControllerManager.PostsOf` | source/library/include/controller/controller_manager.h:337-344 | the root's default `control()` posts nothing; another controller's posts what user code says |
| `ControllerManager.LeavesOf` | source/library/include/controller/controller_interface.h:84 | a `handle_message` call removes its recipient only when the recipient is not the root, whose handler is the default, empty one |
| `ControllerManager.PostedSkipsRoot` | source/library/include/controller/controller_manager.h:337-344 | with the root's posts masked, the control pass queues exactly the posts of the other controllers, in call order |
| `ControllerManager.RootNeverLeaves` | source/library/include/controller/controller_interface.h:84 | no `handle_message` call of a delivery log removes the root |
| `ControllerManager.Posted` | source/library/src/controller/controller_manager.cpp:211-258 | every message the control pass posts is queued unsent |
| `ControllerManager.Leavers` | source/library/src/controller/message_manager.cpp:42-45 | the recipients of the `handle_message` calls that call `remove_self`, and only recipients of calls made |
| `ControllerManager.Survivors` | source/library/src/controller/controller_manager.cpp:196-208 | a controller is alive at the end of the step exactly when it was alive and neither its `control()` nor one of its `handle_message` calls removed it |
| `ControllerManager.DeadAreUnlinked` | source/library/src/controller/controller_manager.cpp:196-208 | after `remove_if` with `should_remove`, no dead controller other than the root is reachable from the root |
| `ControllerManager.QuittersUnlinked` | source/library/include/controller/controller_interface.h:143-147 | a controller whose `control()` calls `remove_self` is unreachable at the end of the same `step` |
| `ControllerManager.Manager.DeliverAll` | source/library/src/controller/controller_manager.cpp:206 | message delivery over the controllers in pre-order from the root |
| `ControllerManager.Manager.RemoveDead` | source/library/src/controller/controller_manager.cpp:196-208 | the tree becomes `Pruned` by "dead or null"; the root is never removed |
| `ControllerManager.Manager.SendParcel` | source/library/src/controller/controller_manager.cpp:211-225 | a null sender is ignored; otherwise a message with that parcel goes last in the queue |
| `ControllerManager.Manager.SendParameters` | source/library/src/controller/controller_manager.cpp:243-258 | a null sender is ignored; otherwise an immediate parcel with those parameters goes last |
| `ControllerManager.Manager.SendParameter` | source/library/src/controller/controller_manager.cpp:227-241 | always queues an immediate parcel, even for a null sender, and returns its slot for chaining |
| `ControllerManager.Manager.ChainParameter` | source/library/include/controller/message.h:159 | chaining onto a returned parcel changes exactly that queued message |
| `ControllerManager.StruckMember` | source/library/src/controller/controller_manager.cpp:102-116 | a controller is struck exactly when it is visited and matches; nothing below a struck controller is visited or struck |
| `DataCache.LookupReplay` | source/library/include/utilities/cache.h:105-129 | a lookup gives the data pointer last cached under the identifier since the last flush, or null; an identifier is present exactly when it was cached since the last flush |
| `DataCache.Cache.constructor` | source/library/include/utilities/cache.h:73 | an empty cache |
| `DataCache.Cache.Copy` | source/library/include/utilities/cache.h:74 | the same bindings |
| `DataCache.Cache.GetData` | source/library/include/utilities/cache.h:117-123 | the data pointer last cached under the identifier since the last flush, or null |
| `DataCache.Cache.CacheData` | source/library/include/utilities/cache.h:124-129 | binds the identifier and leaves every other binding |
| `DataCache.Cache.Flush` | source/library/include/utilities/cache.h:105 | the cache is empty |
| `DataCache.CacheFacts` | source/library/include/utilities/cache.h:81-105 | a pointer just cached is read back; other identifiers are unaffected; after a flush every lookup is null |
| `Property.ReplayLatest` | source/library/include/utilities/property_manager.h:52-58 | the map holds exactly the indices ever set or read, each with its last set value, or the default when it was only read |
| `Property.GenericManager.constructor` | source/library/include/utilities/property_manager.h:50 | no properties |
| `Property.GenericManager.Copy` | source/library/include/utilities/property_manager.h:51 | the same properties |
| `Property.GenericManager.SetProperty` | source/library/include/utilities/property_manager.h:52 | binds the index and leaves every other |
| `Property.GenericManager.GetProperty` | source/library/include/utilities/property_manager.h:53-58 | the value last set, or the default; a missing index is inserted with the default, and a present one leaves the map unchanged |
| `Property.PropertyFacts` | source/library/include/utilities/property_manager.h:52-58 | set-then-get returns the set value; other indices are unaffected; a read changes no later read |
| `Objects.Insert` | source/library/src/object/object_manager.cpp:42 | the set gains the element and stays ordered; it is unchanged if the element was there, and grows by one otherwise |
| `Objects.Erase` | source/library/src/object/object_manager.cpp:52 | the set loses the element, keeps its order and shrinks by one if the element was there, and is unchanged otherwise |
| `Objects.EraseAt` | source/library/src/object/object_manager.cpp:55-64 | erasing at the first position holding the element is erasing the element |
| `Objects.SizeIsCount` | source/library/include/object/object_manager.h:86 | the size of the set is its number of distinct elements |
| `Objects.Manager.constructor` | source/library/include/object/object_manager.h:93 | no objects |
| `Objects.Manager.AddObject` | source/library/src/object/object_manager.cpp:36-46 | null or an object already present gives null and no change; otherwise the object is inserted, the size grows by one, and the result resolves to it |
| `Objects.Manager.RemoveObject` | source/library/src/object/object_manager.cpp:48-53 | the object the weak pointer locks to is erased; an expired pointer changes nothing; afterwards that weak pointer no longer resolves to a managed object |
| `Objects.Manager.RemoveRaw` | source/library/src/object/object_manager.cpp:55-64 | erases the object with that address if there is one; a null address changes nothing |
| `Objects.Manager.Size` | source/library/include/object/object_manager.h:86 | the number of managed objects |
| `Objects.Manager.Step` | source/library/src/object/object_manager.cpp:66-74 | every managed object is updated exactly once, in the set's order (boost's owner order of shared pointers) |

## Left out

- User code such as a controller's `initialize`, `control`, `clone_prototype` and `handle_message` enters as parameters: a boolean result, a visitor, a `Kind`, or the log of calls made. In `step`, a `control()` or `handle_message` call may remove its own controller, and a `control()` call may queue messages; both are modelled, except at the root, whose `control()` and `handle_message` are the defaults that do neither (`Controls`, `Quits`, `PostsOf`, `LeavesOf` mask what user code says of it). Other calls user code makes while a walk is running are not modelled: renaming a controller, adding or removing other controllers, and messages queued from inside `handle_message`.
- A controller class's `get_type`, `get_type_id` and `clone_prototype` enter as its `Kind`. A class that overrides none of them has `Kind("", -1, false)` (controller_interface.h:70-72); the root has `RootKind`. The root's `initialize()` returns false (controller_manager.h:343); the manager never initializes the root it creates, so that is not modelled.
- Memory ownership (`shared_ptr` reference counts, destruction) is not modelled. A removed subtree stays in the arena, and its nodes are never freed.
- The `timed` condition reads a wall clock and is left out. The other conditions read variables through an environment passed in at the time they are asked.
- `parameter` holds any copyable type in the source. Here it holds one of four types: integers, booleans, text and controller handles.
- The fourteen `parameters(...)` overloads are one method over a sequence of 1 to 14 values.
- The `send_message` overloads that return a parcel reference return its queue slot instead. `ChainParameter` extends that slot.
- What `update` does to an object is not modelled. The object manager's `begin`/`end` iterators are the `objects` field.
- The choice of `std::map` or `unordered_map` depends on the platform. It does not change what any modelled operation returns.
- Only the controller manager draws identifiers in this model. Identifiers drawn elsewhere in the program would also advance the counter; that is modelled only as an arbitrary starting value.
- `Tree.Forest.AddChild`: requires the new child to be in no other child list and not above the parent. The source checks neither; with such a child it would share a subtree between two parents, or make a cycle that its recursive traversals never leave.
- `ControllerManager.Manager.AddController`: carries the same requirement on the child, for the same reason.
- `ControllerManager.Manager.AddControllerToRoot`: carries the same requirement on the child, for the same reason.
- `ControllerManager.Manager.AddInitializedController`: carries the same requirement on the child, for the same reason.
- `ControllerManager.Manager.AddControllerOfType`: built on the corrected `CreateController`, so for a type with no prototype it returns null where the source throws `bad_weak_ptr` (Findings row 4).
- `ControllerManager.Manager.AddControllerOfTypeToRoot`: the same as `AddControllerOfType`, below the root.
- `ControllerManager.Manager.RemoveControllerByIdAsWritten`: the number of copies `boost::bind` and the by-value visitor make is a parameter, because boost's internals fix it. After 2^64 draws a test could match; the source would then not descend below that controller, and the model still tests the whole tree.
- The free `operator==(unsigned long, id_type)` is declared at source/library/include/elements/id.h:86, but its definition is not part of this model. `Probe` takes it to compare the value with the value of its by-value copy.
- The object set is ordered by the owner (control block) of each shared pointer, as boost's `operator<` on `shared_ptr` does, and an object is identified with its owner. Two separately owned shared pointers to one address would be two elements of the source's set, of which `remove_object(raw)` erases only the first (its `break`); the model cannot represent that case.
- The four comparison conditions (`less_than_value`, `less_than_variable`, `equal_to_value`, `equal_to_variable`) are templates over any type with `<` and `==`. Here their values are integers: floating-point values and NaN are not modelled. With NaN, `equal_to_variable(x, x)` is false and `!(a < b)` does not imply `b <= a`; in the model both hold.
- `Ids.Modulus`: `unsigned long` is taken as 64 bits wide (LP64). On a platform where it is 32 bits wide, such as the WIN32 builds, the counter wraps after 2^32 draws, and every "while at most 2^64 identifiers have been drawn" guard (`CreateId`, `Copy`, `Assign`, `IssuedCompare`, `NewController`, `Probe`, `RemoveControllerByIdAsWritten`, `FindControllerByIdAsWritten`) becomes 2^32 there.
- `Objects.Manager.Step`: states the order in which `update` is called, not its effects (user code).
- `ControllerManager.Manager.NewController`: states that the identifier is new only while fewer than 2^64 identifiers have been drawn. After that the counter has wrapped.

## Findings

| source | as written | input that shows it | evidently intended | confidence | as-written member | corrected member |
|---|---|---|---|---|---|---|
| source/library/src/controller/controller_manager.cpp:119-132 | `remove_controller_by_id` takes `id_type` by value, and `controller->get_id() == id` calls the free `operator==(unsigned long, id_type)`, which takes it by value again. Each `id_type` copy draws a new identifier, so the test compares each controller with a never-issued value | `remove_controller(*c)` for any controller `c` in the tree | remove the controller whose identifier is the one given | high (not executed) | `ControllerManager.Manager.RemoveControllerByIdAsWritten` | `ControllerManager.Manager.RemoveControllerById` |
| source/library/src/controller/controller_manager.cpp:144-156 | `controller_has_id` takes `id_type` by value and compares through the same free `operator==`, with the same effect, so `find_controller(id)` never finds anything | `find_controller(*c)` for any controller `c` in the tree | return the first controller in pre-order with that identifier | high (not executed) | `ControllerManager.Manager.FindControllerByIdAsWritten` | `ControllerManager.Manager.FindControllerById` |
| source/library/include/elements/tree.h:104 | the const overload of `children_end` returns `child_list.begin()` | a const node with one child: the range from `children_begin` to `children_end` is empty | return `child_list.end()` | high (not executed) | `Tree.ConstChildrenAsWritten` | `Tree.ConstChildrenEnd` |
| source/library/src/controller/controller_manager.cpp:72-78 | the empty `weak_ptr` that `find_prototype` returns for an unknown type goes to the throwing `shared_ptr` constructor, so `bad_weak_ptr` escapes before the null check | `create_controller("no such type", params)` | return null, as the comment on the next line says; `add_controller(type, params, parent)` and `add_controller(type, params)` then return null too, and the model's `AddControllerOfType` and `AddControllerOfTypeToRoot` are built on this corrected version | high (not executed) | `ControllerManager.Manager.CreateControllerAsWritten` | `ControllerManager.Manager.CreateController` |
