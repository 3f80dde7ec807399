/** Concrete runs of the handlers, and two behaviours of the server that are easy to get wrong. */
module Scenarios {
  import opened Options
  import opened Seqs
  import opened Messages
  import opened RoomRegistry
  import opened Server

  /** A connection that joins an unknown room is told there is nobody else yet. */
  lemma FirstJoinSeesNobody()
    ensures Join(map[], "A", Some("r")) == Step(map["r" := ["A"]], [Send("A", Joined("r", []))])
  {
    var reg: Registry := map[];
    assert Members(reg, "r") == [];
    var room2: seq<ConnId> := [] + ["A"];
    assert room2 == ["A"];
    assert Without(room2, "A") == [];
    assert Broadcast([], PeerJoined("A")) == [];
    assert AddMember(reg, "A", "r") == Step(map["r" := ["A"]], [Send("A", Joined("r", []))]);
  }

  /** The second connection is told about the first, and the first hears that it arrived. */
  lemma SecondJoinSeesFirst()
    ensures Join(map["r" := ["A"]], "B", Some("r"))
            == Step(map["r" := ["A", "B"]], [Send("B", Joined("r", ["A"])), Send("A", PeerJoined("B"))])
  {
    var reg := map["r" := ["A"]];
    var room: seq<ConnId> := ["A"];
    assert Members(reg, "r") == room;
    assert "B" !in room;
    var room2 := room + ["B"];
    assert room2 == ["A", "B"];
    assert Without(room2, "B") == ["A"] by {
      assert room2[1..] == ["B"];
      assert Without(["B"], "B") == [];
    }
    assert Broadcast(["A"], PeerJoined("B")) == [Send("A", PeerJoined("B"))];
  }

  /** A third connection is turned away and the room is unchanged. */
  lemma ThirdJoinIsRefused()
    ensures Join(map["r" := ["A", "B"]], "C", Some("r"))
            == Step(map["r" := ["A", "B"]], [Send("C", RoomFull("r"))])
  {
  }

  /** When A leaves, B is told and stays. */
  lemma FirstLeaveNotifiesPeer()
    ensures Disconnect(map["r" := ["A", "B"]], ["r"], "A") == Step(map["r" := ["B"]], [Send("B", PeerLeft("A"))])
  {
  }

  /** When the last member leaves, the room is deleted. */
  lemma LastLeaveDeletesRoom()
    ensures Disconnect(map["r" := ["B"]], ["r"], "B") == Step(map[], [])
  {
  }

  /** A member of a full room that joins it again is answered with room-full; it is not a no-op. */
  lemma RejoinOfFullRoomIsRefused(reg: Registry, sender: ConnId, id: RoomId)
    requires id != "" && IsFull(reg, id) && sender in reg[id]
    ensures Join(reg, sender, Some(id)) == Step(reg, [Send(sender, RoomFull(id))])
  {
  }

  /** An empty room made by create-room survives every disconnect. */
  lemma EmptyRoomSurvivesDisconnect(reg: Registry, order: seq<RoomId>, c: ConnId, id: RoomId)
    requires Enumerates(order, reg)
    requires id in reg && reg[id] == []
    ensures id in Disconnect(reg, order, c).reg && Disconnect(reg, order, c).reg[id] == []
  {
  }
}
