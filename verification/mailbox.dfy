/**
 The server's in-memory mailbox store: a map from destination group id to a
 FIFO queue of pending messages (`messageQueue` in server.cpp).
 */
module Mailbox {

  /** One pending message: the group that sent it and its text. */
  datatype Message = Message(fromGroupID: string, content: string)

  /** Destination group id to its FIFO queue, oldest message first. */
  type Store = map<string, seq<Message>>

  /** The queue of group `g`; a group with no entry reads as an empty queue. */
  function Queue(q: Store, g: string): seq<Message>
  {
    if g in q then q[g] else []
  }

  /** `storeMessage`: append at the back of `to`'s queue, creating the entry if it is absent. */
  function StoreMessage(q: Store, to: string, from: string, content: string): (q': Store)
    ensures q'.Keys == q.Keys + {to}
    ensures Queue(q', to) == Queue(q, to) + [Message(from, content)]
    ensures forall g :: g != to ==> Queue(q', g) == Queue(q, g)
  {
    q[to := Queue(q, to) + [Message(from, content)]]
  }

  /** What `getMessages` hands back: the new store and the drained messages. */
  datatype Drained = Drained(store: Store, messages: seq<Message>)

  /**
   `getMessages`: return the whole queue of `g` in FIFO order and leave it empty.
   A known group keeps its (now empty) entry; an unknown group gets no entry.
   */
  function GetMessages(q: Store, g: string): (d: Drained)
    ensures d.messages == Queue(q, g)
    ensures Queue(d.store, g) == []
    ensures forall h :: h != g ==> Queue(d.store, h) == Queue(q, h)
    ensures d.store.Keys == q.Keys
  {
    if g in q then Drained(q[g := []], q[g]) else Drained(q, [])
  }

  /** `getMessageCount`: the number of messages pending for `g`, 0 for an unknown group. */
  function GetMessageCount(q: Store, g: string): (n: nat)
    ensures n == |GetMessages(q, g).messages|
    ensures n == 0 <==> Queue(q, g) == []
  {
    if g in q then |q[g]| else 0
  }

  /** Enqueue `ms` for group `to`, one `storeMessage` call per message, in order. */
  function StoreAll(q: Store, to: string, ms: seq<Message>): Store
    decreases |ms|
  {
    if |ms| == 0 then q
    else StoreAll(StoreMessage(q, to, ms[0].fromGroupID, ms[0].content), to, ms[1..])
  }

  /** A run of enqueues appends exactly those messages, in order, and touches no other group. */
  lemma {:induction false} StoreAllAppends(q: Store, to: string, ms: seq<Message>)
    ensures Queue(StoreAll(q, to, ms), to) == Queue(q, to) + ms
    ensures forall g :: g != to ==> Queue(StoreAll(q, to, ms), g) == Queue(q, g)
    decreases |ms|
  {
    if |ms| > 0 {
      var q1 := StoreMessage(q, to, ms[0].fromGroupID, ms[0].content);
      StoreAllAppends(q1, to, ms[1..]);
      assert Queue(q1, to) == Queue(q, to) + [ms[0]];
      assert Queue(q, to) + [ms[0]] + ms[1..] == Queue(q, to) + ms;
    } else {
      assert Queue(q, to) + ms == Queue(q, to);
    }
  }

  /**
   FIFO drain: after any run of enqueues to a group with nothing pending, one
   drain returns exactly those messages in enqueue order, and an immediate
   second drain returns nothing.
   */
  lemma DrainReturnsEnqueuedInOrder(q: Store, to: string, ms: seq<Message>)
    requires Queue(q, to) == []
    ensures GetMessages(StoreAll(q, to, ms), to).messages == ms
    ensures GetMessages(GetMessages(StoreAll(q, to, ms), to).store, to).messages == []
  {
    StoreAllAppends(q, to, ms);
    assert [] + ms == ms;
  }

  /** Draining an unknown group leaves the store exactly as it was. */
  lemma DrainUnknownGroupChangesNothing(q: Store, g: string)
    requires g !in q
    ensures GetMessages(q, g) == Drained(q, [])
  {
  }

  /** Counting never changes the store, and it is unaffected by enqueues to other groups. */
  lemma CountIgnoresOtherGroups(q: Store, to: string, from: string, content: string, g: string)
    requires g != to
    ensures GetMessageCount(StoreMessage(q, to, from, content), g) == GetMessageCount(q, g)
  {
  }

  /** An enqueue to `to` raises its count by exactly one. */
  lemma CountAfterStore(q: Store, to: string, from: string, content: string)
    ensures GetMessageCount(StoreMessage(q, to, from, content), to) == GetMessageCount(q, to) + 1
  {
  }

  /** An entry with an empty queue cannot be told apart from an absent one by counting or draining. */
  lemma EmptyEntryIsLikeAbsent(q: Store, g: string, h: string)
    requires g in q && q[g] == []
    ensures GetMessageCount(q, h) == GetMessageCount(q - {g}, h)
    ensures GetMessages(q, h).messages == GetMessages(q - {g}, h).messages
  {
  }
}
