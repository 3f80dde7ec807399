/** The server's only state: the in-memory map from room id to the set of member connections. */
module RoomRegistry {
  import opened Seqs
  import opened Messages

  /** Each member list is a JavaScript `Set` of connection ids, kept in insertion order. */
  type Registry = map<RoomId, seq<ConnId>>

  /** The members of a room, or none when the registry has no entry for it. */
  function Members(reg: Registry, id: RoomId): seq<ConnId> {
    if id in reg then reg[id] else []
  }

  /** A room the join handler turns away. */
  predicate IsFull(reg: Registry, id: RoomId) {
    id in reg && |reg[id]| >= 2
  }

  /** The capacity invariant: every room is a set (no repeated member) of at most two connections.
      Empty rooms are allowed: the create-room endpoint makes them. */
  predicate Valid(reg: Registry) {
    forall k :: k in reg ==> NoDup(reg[k]) && |reg[k]| <= 2
  }

  /** `order` lists every room id of the registry exactly once, as `Object.entries` does. */
  predicate Enumerates(order: seq<RoomId>, reg: Registry) {
    && NoDup(order)
    && (forall k :: k in order ==> k in reg)
    && (forall k :: k in reg ==> k in order)
  }

  /** A room whose only member was `c`, which therefore becomes empty when `c` leaves. */
  predicate Emptied(members: seq<ConnId>, c: ConnId) {
    c in members && Without(members, c) == []
  }

  /** Reference definition of the registry after `c` disconnects, independent of iteration order:
      `c` is removed from every room, and the rooms it leaves empty are dropped. */
  function AfterLeave(reg: Registry, c: ConnId): Registry {
    map k | k in reg && !Emptied(reg[k], c) :: Without(reg[k], c)
  }

  /** The rooms in which `m` will be told that `c` left. */
  function SharedRooms(reg: Registry, c: ConnId, m: ConnId): set<RoomId> {
    set k | k in reg && c in reg[k] && m in reg[k] && m != c
  }
}
