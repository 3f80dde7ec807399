/** The socket and HTTP handlers of the signalling server, as pure steps from the registry (and the
    event that arrived) to the next registry and the messages to deliver. */
module Server {
  import opened Options
  import opened Seqs
  import opened Messages
  import opened RoomRegistry

  /** What one handler run leaves behind: the new registry and the messages it emitted, in order. */
  datatype Step = Step(reg: Registry, out: seq<Outbound>)

  /** Text of the error sent for a join without a room id. */
  const NoRoomIdText: string := "no roomId provided"

  // ---------------------------------------------------------------------------------------------
  // create-room

  /** The `/create-room` endpoint once it has drawn an id that is not yet a key: it registers an
      empty room under that id and leaves every other room alone. */
  function CreateRoom(reg: Registry, id: RoomId): (r: Registry)
    requires id !in reg
    ensures id in r && r[id] == []
    ensures r.Keys == reg.Keys + {id}
    ensures forall k :: k in reg ==> r[k] == reg[k]
    ensures Valid(reg) ==> Valid(r)
  {
    reg[id := []]
  }

  // ---------------------------------------------------------------------------------------------
  // join

  /** The room after an accepted join, the joined reply and the peer-joined notices, described
      against the room as it was before the join. */
  ghost predicate Admitted(reg: Registry, sender: ConnId, id: RoomId, r: Step) {
    var before := Members(reg, id);
    var peers := Without(before, sender);
    // membership: the joiner is in, everybody else who was there stays, in the same order
    && id in r.reg
    && before <= r.reg[id]
    && (forall m :: m in r.reg[id] <==> m in before || m == sender)
    && |r.reg[id]| <= 2
    && (NoDup(before) ==> NoDup(r.reg[id]))
    // every other room is untouched
    && (forall k :: k != id ==> (k in r.reg <==> k in reg))
    && (forall k :: k != id && k in reg ==> r.reg[k] == reg[k])
    // the joiner hears first, about the members already present and never about itself
    && |r.out| == 1 + |peers|
    && r.out[0] == Send(sender, Joined(id, peers))
    && sender !in peers
    // then each of those members hears once that the joiner arrived
    && (forall i :: 1 <= i < |r.out| ==> r.out[i].msg == PeerJoined(sender))
    && (NoDup(before) ==>
          forall m :: multiset(r.out)[Send(m, PeerJoined(sender))]
                        == if m in r.reg[id] && m != sender then 1 else 0)
  }

  /** The `join` handler. A falsy room id is answered with an error; an unknown room is created on
      the spot; a room that already has two members is answered with room-full, before any check
      of whether the sender is one of them; otherwise the sender is added. */
  function Join(reg: Registry, sender: ConnId, roomId: Option<string>): (r: Step)
    ensures !Truthy(roomId) ==> r.reg == reg && r.out == [Send(sender, ErrorMsg(NoRoomIdText))]
    ensures Truthy(roomId) && IsFull(reg, roomId.value) ==>
              r.reg == reg && r.out == [Send(sender, RoomFull(roomId.value))]
    ensures Truthy(roomId) && !IsFull(reg, roomId.value) ==> Admitted(reg, sender, roomId.value, r)
    ensures Valid(reg) ==> Valid(r.reg)
  {
    if !Truthy(roomId) then
      Step(reg, [Send(sender, ErrorMsg(NoRoomIdText))])
    else
      var id := roomId.value;
      // an unknown room is materialised empty, so it is never full
      var room := Members(reg, id);
      if |room| >= 2 then
        Step(reg, [Send(sender, RoomFull(id))])
      else
        AddMember(reg, sender, id)
  }

  /** The accepted branch of `join`: add the sender to the (possibly new) room, reply with the
      members already present, and tell each of them that the sender arrived. */
  function AddMember(reg: Registry, sender: ConnId, id: RoomId): (r: Step)
    requires !IsFull(reg, id)
    ensures Admitted(reg, sender, id, r)
    ensures Valid(reg) ==> Valid(r.reg)
  {
    var room := Members(reg, id);
    var room2 := if sender in room then room else room + [sender];
    var peers := Without(room2, sender);
    var out := [Send(sender, Joined(id, peers))] + Broadcast(peers, PeerJoined(sender));
    var r := Step(reg[id := room2], out);
    JoinedPeers(room, sender);
    JoinMembership(room, sender);
    JoinNotices(room, sender, id, out);
    r
  }

  /** The room after an accepted join keeps its earlier members in order and gains the joiner. */
  lemma JoinMembership(room: seq<ConnId>, sender: ConnId)
    requires |room| < 2
    ensures var room2 := if sender in room then room else room + [sender];
      && room <= room2
      && (forall m :: m in room2 <==> m in room || m == sender)
      && |room2| <= 2
      && (NoDup(room) ==> NoDup(room2))
  {
    if NoDup(room) && sender !in room {
      AppendFreshNoDup(room, sender);
    }
  }

  /** The peers reported to a joiner are the members that were there before it. */
  lemma JoinedPeers(room: seq<ConnId>, sender: ConnId)
    ensures Without(if sender in room then room else room + [sender], sender) == Without(room, sender)
  {
    if sender !in room {
      WithoutAppend(room, sender);
    }
  }

  /** The peer-joined notices of a join reach each earlier member once. */
  lemma NoticesReachEachPeerOnce(peers: seq<ConnId>, sender: ConnId, id: RoomId, out: seq<Outbound>, m: ConnId)
    requires NoDup(peers)
    requires out == [Send(sender, Joined(id, peers))] + Broadcast(peers, PeerJoined(sender))
    ensures multiset(out)[Send(m, PeerJoined(sender))] == if m in peers then 1 else 0
  {
    BroadcastDeliversOnce(peers, PeerJoined(sender), m);
    assert multiset(out) == multiset([Send(sender, Joined(id, peers))])
                           + multiset(Broadcast(peers, PeerJoined(sender)));
  }

  /** With distinct members, the join notices reach each member other than the joiner once. */
  lemma JoinNotices(room: seq<ConnId>, sender: ConnId, id: RoomId, out: seq<Outbound>)
    requires out == [Send(sender, Joined(id, Without(room, sender)))]
                    + Broadcast(Without(room, sender), PeerJoined(sender))
    ensures NoDup(room) ==>
              forall m :: multiset(out)[Send(m, PeerJoined(sender))]
                            == if m in room && m != sender then 1 else 0
  {
    if NoDup(room) {
      forall m
        ensures multiset(out)[Send(m, PeerJoined(sender))] == if m in room && m != sender then 1 else 0
      {
        NoticesReachEachPeerOnce(Without(room, sender), sender, id, out, m);
      }
    }
  }

  // ---------------------------------------------------------------------------------------------
  // signal

  /** The `signal` handler: forward the payload, unchanged and tagged with the sender, to the
      connection named by `to`. Nothing is sent when `to` or `data` is falsy. No room membership is
      consulted and the registry is never touched. */
  function Signal(reg: Registry, sender: ConnId, to: Option<ConnId>, data: Option<Payload>): (r: Step)
    ensures r.reg == reg
    ensures |r.out| <= 1
    ensures r.out == [] <==> !Truthy(to) || data.None?
    ensures forall o :: o in r.out ==> o == Send(to.value, Messages.Signal(sender, data.value))
  {
    if !Truthy(to) || data.None? then Step(reg, [])
    else Step(reg, [Send(to.value, Messages.Signal(sender, data.value))])
  }

  /** Signal forwarding does not depend on who is in which room. */
  lemma SignalIgnoresRooms(reg1: Registry, reg2: Registry, sender: ConnId, to: Option<ConnId>, data: Option<Payload>)
    ensures Signal(reg1, sender, to, data).out == Signal(reg2, sender, to, data).out
  {
  }

  // ---------------------------------------------------------------------------------------------
  // disconnect

  /** One iteration of the disconnect loop: if `c` is a member of room `k`, remove it, tell the
      remaining members, and delete the room if nobody is left. */
  function LeaveRoom(reg: Registry, k: RoomId, c: ConnId): (r: Step)
    ensures !(k in reg && c in reg[k]) ==> r == Step(reg, [])
    ensures k in reg ==> (k in r.reg <==> !Emptied(reg[k], c))
    ensures k in r.reg ==> k in reg && r.reg[k] == Without(reg[k], c) && c !in r.reg[k]
    ensures forall j :: j != k ==> (j in r.reg <==> j in reg)
    ensures forall j :: j != k && j in reg ==> r.reg[j] == reg[j]
    ensures k in reg && c in reg[k] ==> |r.out| == |Without(reg[k], c)|
    ensures forall i :: 0 <= i < |r.out| ==>
              k in reg && r.out[i] == Send(r.out[i].to, PeerLeft(c)) && r.out[i].to in reg[k] && r.out[i].to != c
  {
    if k in reg && c in reg[k] then
      var rest := Without(reg[k], c);
      var out := Broadcast(rest, PeerLeft(c));
      if |rest| == 0 then Step(reg - {k}, out) else Step(reg[k := rest], out)
    else
      Step(reg, [])
  }

  /** The disconnect loop over a snapshot of the room ids, in the snapshot's order. */
  function LeaveEach(reg: Registry, keys: seq<RoomId>, c: ConnId): (r: Step)
    ensures forall i :: 0 <= i < |r.out| ==> r.out[i].msg == PeerLeft(c)
    ensures (forall k :: k in reg ==> c !in reg[k]) ==> r == Step(reg, [])
    decreases |keys|
  {
    if keys == [] then Step(reg, [])
    else
      var first := LeaveRoom(reg, keys[0], c);
      var rest := LeaveEach(first.reg, keys[1..], c);
      Step(rest.reg, first.out + rest.out)
  }

  /** The registry after the loop has visited the room ids in `keys`. */
  function Visited(reg: Registry, keys: seq<RoomId>, c: ConnId): Registry {
    map k | k in reg && !(k in keys && Emptied(reg[k], c)) ::
      if k in keys then Without(reg[k], c) else reg[k]
  }

  /** The registry the disconnect loop leaves after visiting `keys`: `Visited`. */
  lemma {:induction false} LeaveEachRegistry(reg: Registry, keys: seq<RoomId>, c: ConnId)
    requires NoDup(keys)
    ensures LeaveEach(reg, keys, c).reg == Visited(reg, keys, c)
    decreases |keys|
  {
    if keys == [] {
      assert Visited(reg, keys, c) == reg;
    } else {
      var k0 := keys[0];
      var rest := keys[1..];
      assert k0 !in rest;
      assert NoDup(rest);
      var reg1 := LeaveRoom(reg, k0, c).reg;
      LeaveEachRegistry(reg1, rest, c);
      var lhs := Visited(reg1, rest, c);
      var rhs := Visited(reg, keys, c);
      assert forall k :: k in keys <==> k == k0 || k in rest;
      assert lhs.Keys == rhs.Keys;
      forall k | k in lhs
        ensures lhs[k] == rhs[k]
      {
        if k == k0 {
          assert reg1[k0] == Without(reg[k0], c);
        }
      }
    }
  }

  /** The rooms among `keys` in which `m` hears that `c` left. */
  function SharedAmong(reg: Registry, keys: seq<RoomId>, c: ConnId, m: ConnId): set<RoomId> {
    set k | k in keys && k in reg && c in reg[k] && m in reg[k] && m != c
  }

  /** One iteration of the loop tells `m` that `c` left exactly when they shared room `k`. */
  lemma LeaveRoomNotice(reg: Registry, k: RoomId, c: ConnId, m: ConnId)
    requires k in reg ==> NoDup(reg[k])
    ensures multiset(LeaveRoom(reg, k, c).out)[Send(m, PeerLeft(c))]
              == if k in reg && c in reg[k] && m in reg[k] && m != c then 1 else 0
  {
    if k in reg && c in reg[k] {
      BroadcastDeliversOnce(Without(reg[k], c), PeerLeft(c), m);
    }
  }

  /** One iteration of the loop changes room `k` only, and keeps every room duplicate-free. */
  lemma LeaveRoomFrame(reg: Registry, k: RoomId, c: ConnId)
    ensures forall j :: j != k ==> (j in LeaveRoom(reg, k, c).reg <==> j in reg)
    ensures forall j :: j != k && j in reg ==> LeaveRoom(reg, k, c).reg[j] == reg[j]
    ensures (forall j :: j in reg ==> NoDup(reg[j])) ==>
              forall j :: j in LeaveRoom(reg, k, c).reg ==> NoDup(LeaveRoom(reg, k, c).reg[j])
  {
  }

  /** Splitting off the first visited room id splits the count of shared rooms. */
  lemma SharedAmongSplit(reg: Registry, keys: seq<RoomId>, c: ConnId, m: ConnId)
    requires keys != [] && keys[0] !in keys[1..]
    ensures var here := keys[0] in reg && c in reg[keys[0]] && m in reg[keys[0]] && m != c;
      |SharedAmong(reg, keys, c, m)| == (if here then 1 else 0) + |SharedAmong(reg, keys[1..], c, m)|
  {
    var k0 := keys[0];
    var here := k0 in reg && c in reg[k0] && m in reg[k0] && m != c;
    var tail := SharedAmong(reg, keys[1..], c, m);
    assert k0 !in tail;
    if here {
      assert SharedAmong(reg, keys, c, m) == {k0} + tail;
    } else {
      assert SharedAmong(reg, keys, c, m) == tail;
    }
  }

  /** Rooms outside `keys` do not affect which of the rooms in `keys` are shared. */
  lemma SharedAmongFrame(reg: Registry, reg1: Registry, keys: seq<RoomId>, k0: RoomId, c: ConnId, m: ConnId)
    requires k0 !in keys
    requires forall j :: j != k0 ==> (j in reg1 <==> j in reg)
    requires forall j :: j != k0 && j in reg ==> reg1[j] == reg[j]
    ensures SharedAmong(reg1, keys, c, m) == SharedAmong(reg, keys, c, m)
  {
  }

  /** The disconnect loop sends `m` one peer-left per visited room that `m` shared with `c`. */
  lemma {:induction false} LeaveEachNotices(reg: Registry, keys: seq<RoomId>, c: ConnId, m: ConnId)
    requires NoDup(keys)
    requires forall k :: k in reg ==> NoDup(reg[k])
    ensures multiset(LeaveEach(reg, keys, c).out)[Send(m, PeerLeft(c))] == |SharedAmong(reg, keys, c, m)|
    decreases |keys|
  {
    if keys == [] {
      assert SharedAmong(reg, keys, c, m) == {};
    } else {
      var k0 := keys[0];
      var rest := keys[1..];
      assert k0 !in rest;
      assert NoDup(rest);
      var first := LeaveRoom(reg, k0, c);
      LeaveRoomFrame(reg, k0, c);
      LeaveEachNotices(first.reg, rest, c, m);
      LeaveRoomNotice(reg, k0, c, m);
      SharedAmongFrame(reg, first.reg, rest, k0, c, m);
      SharedAmongSplit(reg, keys, c, m);
      var later := LeaveEach(first.reg, rest, c);
      assert LeaveEach(reg, keys, c).out == first.out + later.out;
    }
  }

  /** The `disconnect` handler. `order` is the order in which `Object.entries` lists the rooms.
      Afterwards `c` is in no room; each room it was in has lost exactly that member, and its
      remaining members have each been told once; a room left empty is deleted; every other room,
      including an empty room made by create-room, is untouched. */
  function Disconnect(reg: Registry, order: seq<RoomId>, c: ConnId): (r: Step)
    requires Enumerates(order, reg)
    ensures r.reg == AfterLeave(reg, c)
    ensures forall k :: k in r.reg ==> k in reg && c !in r.reg[k]
    ensures forall k :: k in reg && c !in reg[k] ==> k in r.reg && r.reg[k] == reg[k]
    ensures forall k :: k in reg && c in reg[k] ==>
              if Without(reg[k], c) == [] then k !in r.reg else k in r.reg && r.reg[k] == Without(reg[k], c)
    ensures (forall k :: k in reg ==> c !in reg[k]) ==> r.reg == reg && r.out == []
    ensures forall i :: 0 <= i < |r.out| ==> r.out[i].msg == PeerLeft(c)
    ensures Valid(reg) ==>
              forall m :: multiset(r.out)[Send(m, PeerLeft(c))] == |SharedRooms(reg, c, m)|
    ensures Valid(reg) ==> Valid(r.reg)
  {
    LeaveEachRegistry(reg, order, c);
    assert Visited(reg, order, c) == AfterLeave(reg, c);
    var r := LeaveEach(reg, order, c);
    DisconnectNotices(reg, order, c);
    r
  }

  /** Over all the rooms, each connection hears once per room it shared with the leaver. */
  lemma DisconnectNotices(reg: Registry, order: seq<RoomId>, c: ConnId)
    requires Enumerates(order, reg)
    ensures Valid(reg) ==>
              forall m :: multiset(LeaveEach(reg, order, c).out)[Send(m, PeerLeft(c))] == |SharedRooms(reg, c, m)|
  {
    if Valid(reg) {
      forall m
        ensures multiset(LeaveEach(reg, order, c).out)[Send(m, PeerLeft(c))] == |SharedRooms(reg, c, m)|
      {
        LeaveEachNotices(reg, order, c, m);
        assert SharedAmong(reg, order, c, m) == SharedRooms(reg, c, m);
      }
    }
  }
}
