/** Connection and room identifiers, and the messages the server sends to connections. */
module Messages {
  import opened Seqs

  /** A socket.io connection id, opaque to the server. */
  type ConnId = string

  /** A room id: the key of an entry in the rooms registry. */
  type RoomId = string

  /** A signalling payload (offer, answer or ICE candidate), forwarded without being inspected. */
  datatype Payload = Payload(json: string)

  /** The events the server emits, one constructor per event name. */
  datatype Message =
    | ErrorMsg(message: string)                    // 'error-msg'
    | RoomFull(roomId: RoomId)                     // 'room-full'
    | Joined(roomId: RoomId, peers: seq<ConnId>)   // 'joined'
    | PeerJoined(socketId: ConnId)                 // 'peer-joined'
    | Signal(from: ConnId, data: Payload)          // 'signal'
    | PeerLeft(socketId: ConnId)                   // 'peer-left'

  /** A message addressed to one connection. */
  datatype Outbound = Send(to: ConnId, msg: Message)

  /** The same message addressed to each recipient in turn. */
  function Broadcast(recipients: seq<ConnId>, msg: Message): (r: seq<Outbound>)
    ensures |r| == |recipients|
    ensures forall i :: 0 <= i < |r| ==> r[i] == Send(recipients[i], msg)
  {
    if recipients == [] then []
    else [Send(recipients[0], msg)] + Broadcast(recipients[1..], msg)
  }

  /** A broadcast to distinct recipients reaches every recipient exactly once and nobody else. */
  lemma {:induction false} BroadcastDeliversOnce(recipients: seq<ConnId>, msg: Message, m: ConnId)
    requires NoDup(recipients)
    ensures multiset(Broadcast(recipients, msg))[Send(m, msg)] == if m in recipients then 1 else 0
  {
    if recipients != [] {
      var rest := recipients[1..];
      assert recipients == [recipients[0]] + rest;
      assert NoDup(rest);
      assert recipients[0] !in rest;
      BroadcastDeliversOnce(rest, msg, m);
      assert multiset(Broadcast(recipients, msg))
          == multiset([Send(recipients[0], msg)]) + multiset(Broadcast(rest, msg));
    }
  }
}
