# Room registry of a two-person WebRTC signalling server, in Dafny

The server (`server.js`) pairs two browser connections so that they can exchange WebRTC offers,
answers and ICE candidates. Its only state is `rooms`, a plain object that maps a room id to the
`Set` of socket ids in that room. Four handlers use it:

- the HTTP endpoint `/create-room` draws a random six-character id, retries while the id is taken, and
  registers an empty room under it;
- the socket event `join` admits a connection into a room of at most two members. It creates the room
  if it is unknown, answers `joined` with the members already present, and tells those members
  `peer-joined`;
- the socket event `signal` forwards an opaque payload to the named connection;
- the socket event `disconnect` removes the connection from every room it is in. It tells the
  remaining members `peer-left` and deletes each room that becomes empty.

Node runs each handler to completion before the next one starts. The model therefore describes each
handler as a pure step. A step takes the registry, the sending connection and the event fields, and
returns the next registry and the list of messages to deliver, each addressed to one connection.

Files:

- `options.dfy`: optional event fields and JavaScript truthiness of a string field.
- `seqs.dfy`: duplicate-free sequences standing for a `Set` in insertion order, and `Without`, which is
  the `filter(id => id !== x)` of the join handler.
- `messages.dfy`: identifiers, the six outbound events, and broadcast to a list of connections.
- `room_registry.dfy`: the registry, the capacity invariant `Valid`, and the order-independent
  reference `AfterLeave` for a disconnect.
- `server.dfy`: the four handlers and their proofs.
- `room_ids.dfy`: the length arithmetic of `makeRoomId`, and the retry loop of `/create-room`.
- `trace.dfy`: the server as a state machine over event sequences; the capacity invariant over every run.
- `scenarios.dfy`: concrete join and leave runs, and two behaviours that are easy to get wrong.
- `prototype_keys.dfy`: the join handler with JavaScript's object lookup (see Findings).

The code has two behaviours that a reader of a "rooms of at most two" design might not expect. The
model follows the code in both:

- An empty room made by `/create-room` stays in the registry until somebody joins it and then leaves.
  So "no empty room exists" is not an invariant. Only rooms that a disconnect empties are deleted.
- A connection that is already one of the two members of a room and joins it again is answered
  `room-full`. The size check comes before any membership test, so this is not a no-op.

How inputs are represented:

- A missing or falsy `roomId` or `to` is `None` or `Some("")`.
- A falsy `data` payload is `None`.
- The order in which `Object.entries` lists the rooms is a parameter of `Disconnect`. That order only
  affects the order of the `peer-left` messages, not the resulting registry. `Disconnect` proves that
  the registry equals `AfterLeave`.

## Model

| member | source | states |
|---|---|---|
| Server.CreateRoom | server.js:40-41 | a fresh id becomes a key whose room is empty; all other entries stay exactly as they were; the capacity invariant is kept |
| RoomIds.CreateRoomEndpoint | server.js:35-42 | the id handed out is the first draw not already a key, has 6 characters, and is registered as an empty room with nothing else changed; if every draw collides, nothing changes |
| RoomIds.MakeRoomId | server.js:26-29 | the id is a prefix of the base64url text and has exactly `len` characters, so `slice` never comes up short |
| RoomIds.EncodingLongEnough | server.js:28 | unpadded base64url of ceil(3·len/4) bytes has at least `len` characters |
| RoomIds.Base64UrlLengthIsCeiling | server.js:28 | the unpadded base64url length of n bytes is ceil(4n/3) |
| Server.Join | server.js:47-74 | falsy room id: one error-msg to the sender, registry unchanged; room with two members: one room-full to the sender, registry unchanged, even if the sender is one of them; otherwise the room is admitted (see AddMember); the capacity invariant is kept |
| Server.AddMember | server.js:53-71 | the room exists afterwards and contains exactly its earlier members (same order, as a prefix) plus the joiner; it has at most 2 members; other rooms are untouched; the joiner gets one `joined` whose peers are the earlier members other than itself; each other member gets exactly one `peer-joined` with the joiner's id, and no one else does |
| Server.JoinMembership | server.js:63 | adding to a room of fewer than two keeps it at most two, keeps earlier members in order, and adds nothing twice |
| Server.JoinedPeers | server.js:66-68 | the peers listed to the joiner, computed after it was added, are exactly the members present before it |
| Server.JoinNotices | server.js:71 | with distinct members, each member other than the joiner receives exactly one peer-joined and nobody else does |
| Server.NoticesReachEachPeerOnce | server.js:68-71 | the joined reply plus the broadcast carries exactly one peer-joined for each listed peer |
| Messages.BroadcastDeliversOnce | server.js:71 | a broadcast to distinct recipients reaches each recipient exactly once and nobody else |
| Seqs.Without | server.js:67 | the filtered list holds exactly the elements other than x; it stays duplicate-free and is one shorter when x was present once |
| Seqs.WithoutKeepsOrder | server.js:67 | the filter keeps the original order: any two elements of the result occur in that order in the input |
| Options.Truthy | server.js:48 | `!roomId` and `!to` (server.js:48, 81): an absent value and the empty string are falsy, every other string is truthy |
| Messages.Broadcast | server.js:71 | `socket.to(roomId).emit` (server.js:71, 91): one message per recipient, to that recipient, carrying the same event, in recipient order |
| Server.LeaveRoom | server.js:89-96 | one pass of the disconnect loop: if c is not in room k, nothing changes and nothing is sent; otherwise the room loses c, and is deleted exactly when that empties it; other rooms are untouched; each remaining member gets peer-left(c), and nobody else does |
| Seqs.WithoutAppend | server.js:63-67 | filtering out an element just appended gives the same list as filtering the list before the append |
| Server.Signal | server.js:80-84 | the registry never changes; no message when `to` or `data` is falsy; otherwise exactly one message, to `to`, carrying the sender as `from` and `data` unchanged |
| Server.SignalIgnoresRooms | server.js:80-84 | forwarding is the same whatever the rooms hold: no membership check is made |
| Server.LeaveEach | server.js:88-98 | every message the disconnect loop sends is peer-left for the leaving connection; a connection in no room changes nothing and sends nothing |
| Server.LeaveRoomFrame | server.js:89-96 | one iteration of the loop changes only the room it visits, and keeps every room duplicate-free |
| Server.LeaveRoomNotice | server.js:89-91 | one iteration tells a connection that c left exactly when the two shared the visited room |
| Server.LeaveEachRegistry | server.js:88-98 | after visiting a list of room ids, each visited room has lost c (and is gone if that emptied it); unvisited rooms are unchanged |
| Server.LeaveEachNotices | server.js:88-98 | the number of peer-left messages a connection receives equals the number of visited rooms it shared with c |
| Server.Disconnect | server.js:86-99 | afterwards c is in no room; each room that held c has lost exactly c and is deleted if that left it empty; rooms without c, including empty created rooms, are untouched; with c in no room nothing changes and nothing is sent; every message is peer-left(c); each connection receives one per room it shared with c; the registry equals the order-independent `AfterLeave`; capacity is kept |
| Server.DisconnectNotices | server.js:88-98 | on a valid registry, each connection receives exactly one peer-left per room it shared with the leaver |
| Trace.KeyOrder | server.js:88 | some listing of the room ids with each id exactly once |
| Trace.Apply | server.js:35-99 | every handler keeps the capacity invariant |
| Trace.CapacityInvariant | server.js:57-63 | after any sequence of create-room, join, signal and disconnect events, every room has at most two distinct members |
| Trace.OnlyJoinAddsMember | server.js:63 | a connection in no room stays in none until it sends a join itself; in particular, after a disconnect |
| Scenarios.FirstJoinSeesNobody | server.js:53-68 | the first joiner of an unknown room gets `joined` with no peers, and the room is created with it alone |
| Scenarios.SecondJoinSeesFirst | server.js:63-71 | the second joiner gets `joined` listing the first, and the first gets `peer-joined` |
| Scenarios.ThirdJoinIsRefused | server.js:57-61 | a third connection gets `room-full` and the room is unchanged |
| Scenarios.FirstLeaveNotifiesPeer | server.js:88-92 | when one of two members leaves, the other is told and remains alone |
| Scenarios.LastLeaveDeletesRoom | server.js:93-95 | when the last member leaves, the room is deleted and nobody is told |
| Scenarios.RejoinOfFullRoomIsRefused | server.js:57-61 | a member of a full room that joins it again gets `room-full`, and the registry is unchanged |
| Scenarios.EmptyRoomSurvivesDisconnect | server.js:88-90 | an empty room made by create-room survives any disconnect |
| PrototypeKeys.LookupAsWritten | server.js:53 | `rooms[id]` finds an own entry exactly for keys of the registry, and that entry is the room's member set; it finds an inherited property exactly for `Object.prototype` names that are not keys |
| PrototypeKeys.JoinAsWritten | server.js:53-63 | the handler as written throws exactly for a truthy room id that is an inherited name and not a room; otherwise it behaves as `Join` |
| PrototypeKeys.ProtoRoomJoinThrows | server.js:53-63 | joining room "__proto__" on an empty server throws |
| PrototypeKeys.JoinCreatesAnyUnknownRoom | server.js:53-68 | any non-empty unknown room id is created with the joiner alone, and the joiner is told it has no peers |

## Left out

- Express, the HTTP server, CORS and `server.listen` (server.js:1-20, 102-104) are framework plumbing.
- socket.io's own rooms (`socket.join`, `socket.to`, `io.to`) are not modelled. A broadcast is delivered
  to the other members in the registry, and a point-to-point send is one outbound message. socket.io
  also puts every connection in a room named after its own id, and clients learn those ids from
  `joined` and `peer-joined`. Two consequences of that are left out:
  - a `join` whose room id equals the id of another live connection D makes `socket.to(roomId)` send
    D `peer-joined` (server.js:71), and a later disconnect sends D `peer-left` (server.js:91), although
    D is not in that registry entry;
  - a `signal` whose `to` names a room delivers the payload through `io.to(to)` to every member of
    that room, the sender included (server.js:83), not to one connection.
- `crypto.randomBytes` and the base64url encoder are external calls. The encoded strings are inputs,
  constrained only by their length.
- `console.log` has no effect on state or messages.
- Concurrency is not modelled. Node runs each handler to completion, so a sequence of steps covers
  every interleaving.
- The order of `Object.entries` is not computed. `Disconnect` takes it as a parameter. In a trace,
  `Trace.KeyOrder` picks some order, so the order of a disconnect's `peer-left` messages in a trace is
  not the engine's order. The registry does not depend on this order.
- A `join` or `signal` event sent with no payload object makes the parameter destructuring throw. The
  model always has an event record.
- Non-string `roomId` and `to` values are not modelled. JavaScript coerces them to string keys, but
  `joined` and `room-full` would echo the original value. The model takes strings.
- A signal to a connection that no longer exists is still emitted by the model. socket.io delivers it
  to nobody.
- RoomIds.CreateRoomEndpoint: the endpoint keeps drawing for as long as ids collide. The model gets a
  finite list of draws and reports `found == false` when all of them collide, so it does not model
  endless retrying.
- Server.Join: for a room id that is an `Object.prototype` property name and not a room, the code as
  written throws at server.js:63, while `Server.Join` admits the joiner. `PrototypeKeys.JoinAsWritten`
  models the code as written (see Findings).
- Server.Join: the creation of an unknown room (server.js:53) comes before the size check in the
  code. The model reads an unknown room as empty, so it goes straight to `AddMember`. The two agree,
  because a room just created is never full.

## Findings

| source | as written | input that shows it | evidently intended | confidence | as-written member | corrected member |
|---|---|---|---|---|---|---|
| server.js:53-63 | `rooms` is a plain object, so `rooms[roomId]` also returns properties inherited from `Object.prototype`. For such a name the room is not created, `room.size >= 2` is `undefined >= 2` (false), and `room.add(...)` throws a TypeError inside the socket handler | a `join` with `roomId` `"__proto__"` (or `"toString"`, `"constructor"`, …) on a server with no such room | the lookup sees only rooms in the registry, so an unknown name gets a fresh room with the joiner in it | not executed; high that the handler throws; medium that the uncaught error stops the Node process | PrototypeKeys.JoinAsWritten (counterexample: PrototypeKeys.ProtoRoomJoinThrows) | PrototypeKeys.JoinCreatesAnyUnknownRoom (about Server.Join) |
