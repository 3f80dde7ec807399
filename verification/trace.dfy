/** The server as a state machine. Node runs each handler to completion before the next one starts,
    so any interleaving of connections is a sequence of events applied one at a time. */
module Trace {
  import opened Options
  import opened Seqs
  import opened Messages
  import opened RoomRegistry
  import opened Server

  /** One handler invocation. A create-room event carries the id drawn by the endpoint. */
  datatype Event =
    | CreateRoomEv(id: RoomId)
    | JoinEv(sender: ConnId, roomId: Option<string>)
    | SignalEv(sender: ConnId, to: Option<ConnId>, data: Option<Payload>)
    | DisconnectEv(sender: ConnId)

  /** Some listing of the room ids; which one does not affect the registry a disconnect leaves. */
  ghost function KeyOrder(keys: set<RoomId>): (order: seq<RoomId>)
    ensures NoDup(order)
    ensures forall k :: k in order <==> k in keys
    decreases keys
  {
    if keys == {} then []
    else
      var k :| k in keys;
      var rest := KeyOrder(keys - {k});
      [k] + rest
  }

  /** Apply one event. A drawn id that is already a key is discarded: the endpoint draws again. */
  ghost function Apply(reg: Registry, e: Event): (r: Step)
    ensures Valid(reg) ==> Valid(r.reg)
  {
    match e
    case CreateRoomEv(id) => if id in reg then Step(reg, []) else Step(CreateRoom(reg, id), [])
    case JoinEv(sender, roomId) => Join(reg, sender, roomId)
    case SignalEv(sender, to, data) => Server.Signal(reg, sender, to, data)
    case DisconnectEv(sender) => Disconnect(reg, KeyOrder(reg.Keys), sender)
  }

  /** Apply a sequence of events in order, collecting every message sent. */
  ghost function Run(reg: Registry, events: seq<Event>): Step
    decreases |events|
  {
    if events == [] then Step(reg, [])
    else
      var first := Apply(reg, events[0]);
      var rest := Run(first.reg, events[1..]);
      Step(rest.reg, first.out + rest.out)
  }

  /** The capacity invariant: starting from any valid registry (the server starts from an empty one),
      every room has at most two distinct members after any sequence of events. */
  lemma {:induction false} CapacityInvariant(reg: Registry, events: seq<Event>)
    requires Valid(reg)
    ensures Valid(Run(reg, events).reg)
    decreases |events|
  {
    if events != [] {
      CapacityInvariant(Apply(reg, events[0]).reg, events[1..]);
    }
  }

  /** Does the event sequence contain a join by `c`? */
  predicate JoinsBy(events: seq<Event>, c: ConnId) {
    exists i :: 0 <= i < |events| && events[i].JoinEv? && events[i].sender == c
  }

  /** Only a join by a connection ever puts it in a room: a connection that is in no room (for
      instance, one that has just disconnected) stays in none until it sends a join itself. */
  lemma {:induction false} OnlyJoinAddsMember(reg: Registry, events: seq<Event>, c: ConnId)
    requires forall k :: k in reg ==> c !in reg[k]
    requires !JoinsBy(events, c)
    ensures forall k :: k in Run(reg, events).reg ==> c !in Run(reg, events).reg[k]
    decreases |events|
  {
    if events != [] {
      var e := events[0];
      var next := Apply(reg, e).reg;
      assert !(e.JoinEv? && e.sender == c);
      forall k | k in next
        ensures c !in next[k]
      {
        if e.JoinEv? && Truthy(e.roomId) && !IsFull(reg, e.roomId.value) && k == e.roomId.value {
          assert c !in Members(reg, k);
        }
      }
      assert !JoinsBy(events[1..], c);
      OnlyJoinAddsMember(next, events[1..], c);
    }
  }
}
