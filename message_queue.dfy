/** The message queue (controller/message_manager.h and
    controller/message_manager.cpp). A queued message holds its sender (a
    raw pointer, possibly null), a recipient test, a parcel and a `sent`
    flag. Flushing the queue collects the ready messages, walks the whole
    controller tree once and, at each controller, tries the ready messages
    in queue order; then it purges the messages that were sent or that have
    a null sender. */
module MessageQueue {
  import opened Optional
  import opened Lists
  import opened Parameters
  import opened Messages

  /** The recipient test a message was queued with. */
  datatype Recipient =
    | NamedAs(name: string)        // `controller_has_name`
    | Exactly(target: Option<int>) // `is_controller`: the very same controller
    | OfType(typeName: string)     // `controller_has_type`
    | Anyone                       // `returns_true`

  /** What a recipient test can see of a controller. */
  datatype Profile = Profile(name: string, typeName: string)

  /** Whether controller `h`, whose name and type are `info`, is a recipient.
      A name only matches when it is non-empty. */
  predicate IsRecipient(r: Recipient, h: int, info: Profile) {
    match r
    case NamedAs(n) => |info.name| > 0 && info.name == n
    case Exactly(t) => t == Some(h)
    case OfType(t) => info.typeName == t
    case Anyone => true
  }

  /** `message`: sender, recipient test, parcel and the `sent` flag. */
  datatype Message = Message(from: Option<int>, to: Recipient, parcel: Parcel, sent: bool)

  /** The `message` constructor: not yet sent. */
  function NewMessage(from: Option<int>, to: Recipient, parcel: Parcel): (m: Message)
    ensures m.from == from && m.to == to && m.parcel == parcel && !m.sent
  {
    Message(from, to, parcel, false)
  }

  /** `message_sent`: the purge test. It looks only at whether the sender
      pointer is null, not at whether the sender is still alive. */
  predicate MessageSent(m: Message) {
    m.from.None? || m.sent
  }

  /** One call of a recipient's `handle_message`. */
  datatype Delivery = Delivery(recipient: int, from: int, parcel: Parcel)

  /** The positions, in queue order, of the messages whose parcel is ready
      among the first `n` (`add_ready_message`). */
  function ReadyUpTo(msgs: seq<Message>, env: Env, n: nat): (r: seq<nat>)
    requires n <= |msgs|
    ensures forall k :: 0 <= k < |r| ==> r[k] < n
    ensures forall k, l :: 0 <= k < l < |r| ==> r[k] < r[l]
  {
    if n == 0 then []
    else ReadyUpTo(msgs, env, n - 1) + if Send(msgs[n - 1].parcel, env) then [n - 1] else []
  }

  function Ready(msgs: seq<Message>, env: Env): seq<nat> {
    ReadyUpTo(msgs, env, |msgs|)
  }

  /** A position is ready exactly when its parcel's `send()` is true. */
  lemma {:induction false} ReadyMember(msgs: seq<Message>, env: Env, n: nat, i: int)
    requires n <= |msgs|
    ensures i in ReadyUpTo(msgs, env, n) <==> 0 <= i < n && Send(msgs[i].parcel, env)
  {
    if n > 0 {
      ReadyMember(msgs, env, n - 1, i);
    }
  }

  /** The `handle_message` calls at controller `h` for the ready positions
      `ready`, in that order; a match with a null sender makes no call. */
  function DeliveriesAt(h: int, ready: seq<nat>, msgs: seq<Message>, info: Profile): seq<Delivery> {
    if |ready| == 0 then []
    else
      var i := ready[|ready| - 1];
      DeliveriesAt(h, ready[..|ready| - 1], msgs, info) +
      if i < |msgs| && IsRecipient(msgs[i].to, h, info) && msgs[i].from.Some?
      then [Delivery(h, msgs[i].from.value, msgs[i].parcel)] else []
  }

  /** The `handle_message` calls of a walk visiting `order`. */
  function DeliveryLog(order: seq<int>, ready: seq<nat>, msgs: seq<Message>, info: int -> Profile): seq<Delivery> {
    if |order| == 0 then []
    else
      var h := order[|order| - 1];
      DeliveryLog(order[..|order| - 1], ready, msgs, info) + DeliveriesAt(h, ready, msgs, info(h))
  }

  /** Whether some controller of `order` is a recipient of `m`. */
  ghost predicate Hit(m: Message, order: seq<int>, info: int -> Profile) {
    exists h :: h in order && IsRecipient(m.to, h, info(h))
  }

  /** The queue after the walk: exactly the ready messages that found a
      recipient are flagged as sent, whether or not their sender is null. */
  ghost function Marked(msgs: seq<Message>, ready: seq<nat>, order: seq<int>, info: int -> Profile): (r: seq<Message>)
    ensures |r| == |msgs|
  {
    seq(|msgs|, i requires 0 <= i < |msgs| =>
      msgs[i].(sent := msgs[i].sent || (i in ready && Hit(msgs[i], order, info))))
  }

  /** The `handle_message` calls of `send_messages`: none when the queue
      is empty or nothing is ready, otherwise every ready message to each
      of its recipients in `order`. */
  function Delivered(messages: seq<Message>, env: Env, order: seq<int>, info: int -> Profile): (log: seq<Delivery>)
  {
    if |messages| == 0 || |Ready(messages, env)| == 0 then []
    else DeliveryLog(order, Ready(messages, env), messages, info)
  }

  /** `send_messages` as a function of the queue: unchanged when the queue
      is empty or nothing is ready (the early returns); otherwise flagged,
      then purged of what `message_sent` accepts. */
  ghost function Flushed(msgs: seq<Message>, env: Env, order: seq<int>, info: int -> Profile): seq<Message> {
    var ready := Ready(msgs, env);
    if |msgs| == 0 || |ready| == 0 then msgs
    else RemoveWhere(Marked(msgs, ready, order, info), MessageSent)
  }

  /** A message takes part in delivery at `h` exactly when it is ready and
      `h` is one of its recipients, and a call is made only for a sender. */
  lemma {:induction false} DeliveriesAtMember(h: int, ready: seq<nat>, msgs: seq<Message>, info: Profile, d: Delivery)
    ensures d in DeliveriesAt(h, ready, msgs, info) <==>
      d.recipient == h && exists i ::
        i in ready && i < |msgs| && IsRecipient(msgs[i].to, h, info) &&
        msgs[i].from == Some(d.from) && msgs[i].parcel == d.parcel
  {
    if |ready| > 0 {
      DeliveriesAtMember(h, ready[..|ready| - 1], msgs, info, d);
      assert ready == ready[..|ready| - 1] + [ready[|ready| - 1]];
    }
  }

  /** Every `handle_message` call of a flush is for a ready message with a
      non-null sender and a recipient in the walk, and every such pair gets
      its call: one message can reach several controllers in one pass. */
  lemma {:induction false} DeliveryLogMember(order: seq<int>, ready: seq<nat>, msgs: seq<Message>, info: int -> Profile, d: Delivery)
    ensures d in DeliveryLog(order, ready, msgs, info) <==>
      d.recipient in order && exists i ::
        i in ready && i < |msgs| && IsRecipient(msgs[i].to, d.recipient, info(d.recipient)) &&
        msgs[i].from == Some(d.from) && msgs[i].parcel == d.parcel
  {
    if |order| > 0 {
      var h := order[|order| - 1];
      DeliveryLogMember(order[..|order| - 1], ready, msgs, info, d);
      DeliveriesAtMember(h, ready, msgs, info(h), d);
      assert order == order[..|order| - 1] + [h];
    }
  }

  /** Every `handle_message` call of a flush goes to a controller of the
      walk. */
  lemma DeliveredRecipient(msgs: seq<Message>, env: Env, order: seq<int>, info: int -> Profile, d: Delivery)
    requires d in Delivered(msgs, env, order, info)
    ensures d.recipient in order
  {
    DeliveryLogMember(order, Ready(msgs, env), msgs, info, d);
  }

  /** After a flush in which something was ready, a message stays queued
      exactly when its sender is not null and it was either not ready or
      found no recipient; those that stay are still unsent. */
  lemma StaysQueued(msgs: seq<Message>, env: Env, order: seq<int>, info: int -> Profile, i: int)
    requires 0 <= i < |msgs| && !msgs[i].sent && |Ready(msgs, env)| > 0
    ensures var m := Marked(msgs, Ready(msgs, env), order, info)[i];
      !MessageSent(m) <==> msgs[i].from.Some? && !(Send(msgs[i].parcel, env) && Hit(msgs[i], order, info))
    ensures !MessageSent(Marked(msgs, Ready(msgs, env), order, info)[i]) ==>
      msgs[i] in Flushed(msgs, env, order, info)
  {
    ReadyMember(msgs, env, |msgs|, i);
  }

  /** A flush in which nothing is ready leaves the queue as it was, even
      messages with a null sender. */
  lemma NothingReadyKeepsQueue(msgs: seq<Message>, env: Env, order: seq<int>, info: int -> Profile)
    requires forall i :: 0 <= i < |msgs| ==> !Send(msgs[i].parcel, env)
    ensures Flushed(msgs, env, order, info) == msgs
  {
    if |Ready(msgs, env)| > 0 {
      var i := Ready(msgs, env)[0];
      ReadyMember(msgs, env, |msgs|, i);
    }
  }

  /** Of two queued messages whose parcels differ only in being
      conditioned on `c` and on `is_not(c)`, a flush finds exactly one
      ready: the first when `c` holds, the second otherwise. */
  lemma {:induction false} NegatedPairReady(a: Message, c: Condition, env: Env)
    requires a.parcel.timing == Conditional(c)
    ensures var b := a.(parcel := a.parcel.(timing := Conditional(IsNot(c))));
      Ready([a, b], env) == if Messages.Holds(c, env) then [0] else [1]
  {
    var b := a.(parcel := a.parcel.(timing := Conditional(IsNot(c))));
    assert ReadyUpTo([a, b], env, 1) == if Messages.Holds(c, env) then [0] else [];
  }

  /** The pending queue (`manager` in message_manager.h). */
  class MessageManager {
    var messages: seq<Message>

    /** Every queued message is unsent: flagged ones are purged in the same
        flush that flags them. */
    ghost predicate Valid()
      reads this
    {
      forall i :: 0 <= i < |messages| ==> !messages[i].sent
    }

    constructor()
      ensures Valid() && messages == []
    {
      messages := [];
    }

    /** `add_message`: a null message is ignored, any other goes last. */
    method AddMessage(m: Option<Message>)
      requires Valid() && (m.Some? ==> !m.value.sent)
      modifies this
      ensures Valid()
      ensures m.None? ==> messages == old(messages)
      ensures m.Some? ==> messages == old(messages) + [m.value]
    {
      if m.Some? {
        messages := messages + [m.value];
      }
    }

    /** `operator()` on the parcel of the message at `slot`, through the
        reference the single-parameter send overloads return. */
    method ChainParameter(slot: nat, param: Param)
      requires Valid() && slot < |messages|
      modifies this
      ensures Valid()
      ensures messages == old(messages)[slot := old(messages[slot]).(parcel := Chain(old(messages[slot].parcel), param))]
    {
      messages := messages[slot := messages[slot].(parcel := Chain(messages[slot].parcel, param))];
    }

    /** The positions of the ready messages, in queue order. */
    method CollectReady(env: Env) returns (ready: seq<nat>)
      ensures ready == Ready(messages, env)
    {
      ready := [];
      var i := 0;
      while i < |messages|
        invariant 0 <= i <= |messages|
        invariant ready == ReadyUpTo(messages, env, i)
      {
        if Send(messages[i].parcel, env) {
          ready := ready + [i];
        }
        i := i + 1;
      }
    }

    /** `send_messages`: `order` is the walk of the controller tree from the
        root (every controller, the root included) and `info` the name and
        type each controller has. Returns the `handle_message` calls made. */
    method SendMessages(order: seq<int>, info: int -> Profile, env: Env) returns (log: seq<Delivery>)
      requires Valid()
      modifies this
      ensures Valid()
      ensures messages == Flushed(old(messages), env, order, info)
      ensures log == Delivered(old(messages), env, order, info)
    {
      if |messages| == 0 {
        return [];
      }
      var ready := CollectReady(env);
      if |ready| == 0 {
        return [];
      }
      ghost var msgs := messages;
      log := [];
      var k := 0;
      assert order[..0] == [];
      while k < |order|
        invariant 0 <= k <= |order|
        invariant messages == Marked(msgs, ready, order[..k], info)
        invariant log == DeliveryLog(order[..k], ready, msgs, info)
      {
        var calls := DeliverAt(msgs, ready, order[k], order[..k], info);
        log := log + calls;
        assert order[..k + 1][..k] == order[..k];
        assert order[..k + 1] == order[..k] + [order[k]];
        k := k + 1;
      }
      assert order[..k] == order;
      PurgeSent();
    }

    /** `send_message` at controller `h` (the walk has done `done` before
        it): try the ready messages in queue order, call `handle_message`
        when the sender is not null, and flag every match as sent. */
    method DeliverAt(ghost msgs: seq<Message>, ready: seq<nat>, h: int, ghost done: seq<int>, info: int -> Profile)
      returns (calls: seq<Delivery>)
      requires forall k :: 0 <= k < |ready| ==> ready[k] < |msgs|
      requires forall k, l :: 0 <= k < l < |ready| ==> ready[k] < ready[l]
      requires messages == Marked(msgs, ready, done, info)
      modifies this
      ensures messages == Marked(msgs, ready, done + [h], info)
      ensures calls == DeliveriesAt(h, ready, msgs, info(h))
    {
      calls := [];
      var j := 0;
      while j < |ready|
        invariant 0 <= j <= |ready| && |messages| == |msgs|
        invariant forall i :: 0 <= i < |msgs| ==> messages[i] == msgs[i].(sent := msgs[i].sent ||
          (i in ready && Hit(msgs[i], done, info)) || (i in ready[..j] && IsRecipient(msgs[i].to, h, info(h))))
        invariant calls == DeliveriesAt(h, ready[..j], msgs, info(h))
      {
        var i := ready[j];
        assert ready[..j + 1][..j] == ready[..j];
        assert i !in ready[..j];
        if IsRecipient(messages[i].to, h, info(h)) {
          if messages[i].from.Some? {
            calls := calls + [Delivery(h, messages[i].from.value, messages[i].parcel)];
          }
          messages := messages[i := messages[i].(sent := true)];
        }
        assert forall x :: x in ready[..j + 1] <==> x in ready[..j] || x == i;
        j := j + 1;
      }
      assert ready[..j] == ready;
      forall i | 0 <= i < |msgs|
        ensures Hit(msgs[i], done + [h], info) <==> Hit(msgs[i], done, info) || IsRecipient(msgs[i].to, h, info(h))
      {
        if IsRecipient(msgs[i].to, h, info(h)) {
          assert h in done + [h];
        }
        if Hit(msgs[i], done, info) {
          var x :| x in done && IsRecipient(msgs[i].to, x, info(x));
          assert x in done + [h];
        }
      }
    }

    /** `messages.remove_if(message_sent)`: drop, keeping the order of the
        rest, every message that was sent or has a null sender. */
    method PurgeSent()
      modifies this
      ensures messages == RemoveWhere(old(messages), MessageSent)
      ensures Valid()
    {
      var kept := [];
      var i := 0;
      while i < |messages|
        invariant 0 <= i <= |messages|
        invariant kept == RemoveWhere(messages[..i], MessageSent)
      {
        if !MessageSent(messages[i]) {
          kept := kept + [messages[i]];
        }
        assert messages[..i + 1][..i] == messages[..i];
        i := i + 1;
      }
      assert messages[..i] == messages;
      messages := kept;
    }
  }
}
