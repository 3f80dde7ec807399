/** The rooms registry is a plain JavaScript object, so reading `rooms[roomId]` also finds the
    properties every object inherits from `Object.prototype`. This module models the join handler
    with that lookup, shows the room ids for which it throws, and states what the map-based `Join`
    of the rest of the model does for the same ids. */
module PrototypeKeys {
  import opened Options
  import opened Messages
  import opened RoomRegistry
  import opened Server

  /** The property names a plain object inherits from `Object.prototype`. Each holds a truthy value
      (a function, or the prototype object itself for `__proto__`) with no `size` and no `add`. */
  const InheritedNames: set<string> := {
    "__proto__", "constructor", "hasOwnProperty", "isPrototypeOf", "propertyIsEnumerable",
    "toLocaleString", "toString", "valueOf",
    "__defineGetter__", "__defineSetter__", "__lookupGetter__", "__lookupSetter__"
  }

  /** What `rooms[id]` evaluates to. */
  datatype Lookup = Own(members: seq<ConnId>) | Inherited | Undefined

  function LookupAsWritten(reg: Registry, id: RoomId): (l: Lookup)
    ensures l.Own? <==> id in reg
    ensures l.Inherited? <==> id !in reg && id in InheritedNames
    ensures l.Own? ==> l.members == reg[id]
  {
    if id in reg then Own(reg[id])
    else if id in InheritedNames then Inherited
    else Undefined
  }

  /** A handler either runs to the end or throws. */
  datatype Outcome = Completed(step: Step) | Threw

  /** The join handler with the object lookup. For an inherited name, `!rooms[roomId]` is false, so
      no room is created; `room.size >= 2` compares `undefined` and is false; `room.add` is not a
      function, and the call throws a TypeError. Every other room id behaves as in `Join`. */
  function JoinAsWritten(reg: Registry, sender: ConnId, roomId: Option<string>): (r: Outcome)
    ensures r.Threw? <==> Truthy(roomId) && roomId.value !in reg && roomId.value in InheritedNames
    ensures r.Completed? ==> r.step == Join(reg, sender, roomId)
  {
    if !Truthy(roomId) then Completed(Join(reg, sender, roomId))
    else
      match LookupAsWritten(reg, roomId.value)
      case Inherited => Threw
      case _ => Completed(Join(reg, sender, roomId))
  }

  /** The input that shows it: a join to room "__proto__" on a fresh server throws. */
  lemma ProtoRoomJoinThrows()
    ensures JoinAsWritten(map[], "A", Some("__proto__")) == Threw
  {
  }

  /** The intended behaviour, which `Join` has: any non-empty room id that is not yet a room is
      created with the joiner as its only member, and the joiner is told it is alone. */
  lemma JoinCreatesAnyUnknownRoom(reg: Registry, sender: ConnId, id: RoomId)
    requires id != "" && id !in reg
    ensures Join(reg, sender, Some(id)).reg == reg[id := [sender]]
    ensures Join(reg, sender, Some(id)).out == [Send(sender, Joined(id, []))]
  {
    var r := Join(reg, sender, Some(id));
    assert Members(reg, id) == [];
    var room := r.reg[id];
    assert sender in room;
    assert |room| == 1;
    assert room == [sender];
    assert r.reg == reg[id := [sender]];
  }
}
