# Chat coordinator model

A Dafny model of the real-time core of a socket.io chat server. The server
keeps:

- a presence registry (`activeUsers`), a JavaScript Map from username to
  socket id;
- per-socket state (`socket.data.room`, `socket.data.username`);
- a fixed list of rooms (`PREDEFINED_ROOMS`).

It handles eight socket events: `register-user`, `join-room`, `leave-room`,
`send-room-message`, `typing-room`, `send-private-message`, `typing-private`
and `disconnect`. Each handler is a guarded state change that emits events
to all sockets, to a room, to a room minus the sender, or to one socket. Chat
messages are written to two MongoDB collections. Their mongoose schemas
decide whether a write succeeds: every field is trimmed and required, and the
message is at most 2000 UTF-16 code units long.

Layout:

- `coordinator.dfy` (module `Coordinator`): the class `Server`. It holds the
  connected sockets, the per-socket room and username, the registry, both
  message logs and an outbox of emitted events. There is one method per
  handler. `Valid()` is the invariant every handler keeps: sessions
  consistent with no socket in the room "", registry well formed, every
  stored message schema-valid.
  `RoomsPredefined()` says every socket's room is a predefined room.
  `Recipients` resolves an event's target against the live sockets.
- `presence.dfy` (module `Presence`): the registry as a sequence of
  (username, socket) entries in insertion order. The order matters for Map
  `set`, `delete` and iteration. Also the `online-users` list, and the
  disconnect scan as a loop proved against `FirstWithSocket`.
- `group_message.dfy`, `private_message.dfy`: the two schemas as pure
  normalise, validate and create functions, plus the log invariant
  `AllStored`.
- `schema.dfy`: the `required` and `maxlength` validators of one path.
- `text.dfy`: the JavaScript string semantics the source relies on:
  `String.prototype.trim`, `length` in UTF-16 code units, and the default
  `Array.prototype.sort` order.
- `history.dfy`, `sorting.dfy`: the two message-history reads, as a filter
  and a sort over the logs.
- `wrappers.dfy`: `Option` and `Result`.

Values outside the model:

- Time is the parameter `now`.
- Whether the database accepts a schema-valid write is the parameter
  `storeOk`.
- Database ids come from a counter `nextId`.
- A missing or null text field is `""`, because the source only tests these
  fields for truthiness.

The history reads sort on `date_sent` alone (server.js:102, 123), so the
order among equal timestamps is up to the database. The model's insertion
sort keeps log order among them, but this is not proved.

Two guards worth noting:

- 'typing-room' is dropped when the username is empty, as well as when the
  room is empty or is not the socket's current room (server.js:200).
- 'leave-room' acts only when the given room is non-empty and is the socket's
  current room; the username may be empty (server.js:168).

## Model

| member | source | states |
|---|---|---|
| Coordinator.Server.constructor | server.js:19-20 | a fresh server has no sockets, an empty registry and empty logs; the invariant and "every room is predefined" hold |
| Coordinator.Server.Connect | server.js:132 | a new socket gets an id not in use and empty `socket.data`; the invariant is kept |
| Coordinator.Server.RegisterUser | server.js:133-139 | an empty username changes nothing and emits nothing; otherwise the username now maps to this socket, every other username keeps its socket, and `online-users` with the sorted registry keys goes to all sockets |
| Coordinator.Server.JoinRoom | server.js:141-165 | an empty name, an empty room or a room outside `PREDEFINED_ROOMS` changes nothing; otherwise, if the socket had a room, a "left the room." notice goes to that room minus the socket (even when it is the room being joined); then the socket's room and username are set and a "joined the room." notice goes to the new room with the joiner in it; rooms stay predefined |
| Coordinator.Server.LeaveRoom | server.js:167-180 | acts only when the room is non-empty and is the socket's current room; the socket then has no room, the room's members are the old ones minus the socket, and they get "<username or 'A user'> left the room." |
| Coordinator.Server.StoreGroup | server.js:188 | the group-message write: the log grows by the created record, with the next id, exactly when the schema accepts the fields and the database write succeeds; otherwise nothing changes; the log invariant is kept |
| Coordinator.Server.StorePrivate | server.js:213 | the same for private messages |
| Coordinator.Server.SendRoomMessage | server.js:182-197 | dropped unless all fields are non-empty and the room is the socket's current room; a rejected or failed write emits nothing; a stored record is appended to the log and emitted once to the room, of which the sender is a member |
| Coordinator.Server.TypingRoomEvent | server.js:199-205 | dropped unless the name and room are non-empty and the room is the socket's current room; otherwise one `typing-room` event with `Boolean(isTyping)` goes to the room, and the sender is never among its recipients |
| Coordinator.Server.SendPrivateMessage | server.js:207-232 | dropped if a field is empty; a rejected or failed write emits nothing; a stored record goes to the sender's registered socket and then to the recipient's, each only if registered; if neither is registered it is stored and nothing is emitted |
| Coordinator.Server.TypingPrivateEvent | server.js:234-247 | dropped if a name is empty; otherwise the typing state goes to the recipient's registered socket, or nowhere |
| Coordinator.Server.Unregister | server.js:250-257 | deletes the first registry entry (in insertion order) whose socket is this one and returns its username; returns none and changes nothing when there is no such entry |
| Coordinator.Server.Disconnect | server.js:249-269 | with stored rooms never "", `if (socket.data.room)` is "the socket had a room"; the socket and its room and username are gone; if no registry entry held the socket, the registry and outbox are unchanged; otherwise the first such entry is deleted, the sorted `online-users` list goes to all sockets, and, if the socket had a room, "<username> disconnected." goes to that room |
| Coordinator.ToBoolean | server.js:204 | `Boolean(v)`: false for undefined, null, false, 0 and "", true otherwise |
| Coordinator.Recipients | server.js:148-164 | an event reaches only live sockets; one sent to a room (`io.to(room)`, `socket.to(room)`) reaches only sockets whose current room it is; `socket.to(room)` never reaches the emitting socket; `io.to(id)` reaches at most that socket |
| Coordinator.SendToReaches | server.js:222-230 | `if (socketId) io.to(socketId).emit(...)` after `activeUsers.get`: every event carries the payload, and together they reach exactly the looked-up socket when it is connected, and no socket when the lookup found none |
| Presence.UniqueNamesMeans | server.js:20 | the registry invariant is pairwise distinct usernames (a Map has one entry per key) |
| Presence.IndexOf | server.js:137 | the first index holding the username, or none exactly when no entry holds it |
| Presence.Get | server.js:222-223 | `activeUsers.get(u)`: none exactly when no entry holds `u`, else the socket of an entry holding `u` |
| Presence.GetAt | server.js:20 | with unique names, `get` of an entry's name returns that entry's socket |
| Presence.Set | server.js:137 | `activeUsers.set(u, s)`: `u` maps to `s`, every other name keeps its socket, uniqueness is kept, a known name keeps its position and a new name is appended at the end |
| Presence.RemoveAt | server.js:254 | `delete` of one entry: the entries before it stay in place and those after it shift down by one |
| Presence.GetAfterRemove | server.js:254 | after the deletion the name is free, names stay unique, and every other name maps to the same socket as before |
| Presence.SetWellFormed | server.js:133-137 | registering a non-empty name to a live socket keeps the registry well formed |
| Presence.RemoveWellFormed | server.js:254 | deleting an entry keeps the registry well formed |
| Presence.SupersededSocketNotFound | server.js:137 | when a socket's only name is registered again from another socket, no entry holds the old socket, so the old socket's disconnect is a no-op |
| Presence.FirstWithSocket | server.js:251-257 | the index of the first entry whose socket is `s`, none exactly when no entry has it, and no earlier entry has it |
| Presence.FindBySocket | server.js:251-257 | the `for...of` scan with `break` returns what FirstWithSocket specifies |
| Presence.OnlineUsers | server.js:138 | the `online-users` payload has one name per registry entry |
| Presence.OnlineUsersAreRegistered | server.js:138 | the `online-users` list is in code unit order, holds exactly the registered usernames, each once, and has one name per entry |
| Text.Trim | models/GroupMessage.js:5-7 | the `trim: true` setter: the result has no trimmable character at either end and is no longer than the input |
| Text.TrimIsMiddle | models/GroupMessage.js:5-7 | the trimmed string is a contiguous part of the input, and every character dropped on either side is whitespace or a line terminator |
| Text.TrimEmptyIff | models/GroupMessage.js:5-7 | trimming gives "" exactly when the input is all whitespace |
| Text.TrimOfTrimmed | models/GroupMessage.js:5-7 | trimming a trimmed string changes nothing |
| Text.TrimIdempotent | models/GroupMessage.js:5-7 | trimming twice equals trimming once |
| Text.CodeUnits | models/GroupMessage.js:7 | the UTF-16 encoding has between one and two code units per character, each below 0x10000, and exactly one per character when all characters are in the Basic Multilingual Plane |
| Text.Length | models/GroupMessage.js:7 | `s.length` lies between the number of characters and twice that |
| Text.LengthIsCodeUnitCount | models/GroupMessage.js:7 | `s.length` is the number of UTF-16 code units |
| Text.UnitTotal | server.js:138 | the default sort order compares any two strings |
| Text.UnitTransitive | server.js:138 | the default sort order is transitive |
| Text.InsertStringPermutes | server.js:138 | inserting into a list adds exactly the one string |
| Text.InsertStringSorted | server.js:138 | inserting into a sorted list keeps it sorted |
| Text.SortStringsPermutes | server.js:138 | `sort()` returns a permutation of its input |
| Text.SortStringsSorted | server.js:138 | `sort()` returns its result in UTF-16 code unit order |
| Schema.CheckPath | models/GroupMessage.js:5-7 | a path has no violation exactly when its trimmed value is non-empty and within the length limit; "" violates `required` only |
| GroupMessages.Normalise | models/GroupMessage.js:5-7 | trimming never lengthens a field |
| GroupMessages.Violations | models/GroupMessage.js:5-7 | no violation exactly when the trimmed fields are non-empty and the trimmed message is at most 2000 code units |
| GroupMessages.Create | models/GroupMessage.js:3-10 | creation succeeds exactly when the trimmed fields pass the validators; a created record holds the trimmed fields, the given id and the creation time; a failure carries the non-empty set of violations |
| GroupMessages.BlankMessageRejected | models/GroupMessage.js:7 | a message of nothing but whitespace fails `required` |
| GroupMessages.LongMessageRejected | models/GroupMessage.js:7 | a trimmed message over 2000 code units fails `maxlength` |
| GroupMessages.ResaveIsIdentity | models/GroupMessage.js:5-9 | creating again from a stored record's own fields, id and time gives back the same record |
| GroupMessages.AllStoredMeans | models/GroupMessage.js:3-10 | the log invariant: every record in the log passed the schema and has an id below the bound |
| GroupMessages.AllStoredAppend | models/GroupMessage.js:9 | appending a valid record with the next id keeps the log invariant, with the bound past that id |
| GroupMessages.AllStoredRaise | models/GroupMessage.js:9 | raising the id bound keeps the log invariant |
| PrivateMessages.Normalise | models/PrivateMessage.js:5-7 | trimming never lengthens a field |
| PrivateMessages.Violations | models/PrivateMessage.js:5-7 | no violation exactly when the trimmed fields are non-empty and the trimmed message is at most 2000 code units |
| PrivateMessages.Create | models/PrivateMessage.js:3-10 | creation succeeds exactly when the trimmed fields pass the validators; a created record holds the trimmed fields, the given id and the creation time; a failure carries the non-empty set of violations |
| PrivateMessages.BlankMessageRejected | models/PrivateMessage.js:7 | a message of nothing but whitespace fails `required` |
| PrivateMessages.LongMessageRejected | models/PrivateMessage.js:7 | a trimmed message over 2000 code units fails `maxlength` |
| PrivateMessages.ResaveIsIdentity | models/PrivateMessage.js:5-9 | creating again from a stored record's own fields, id and time gives back the same record |
| PrivateMessages.AllStoredMeans | models/PrivateMessage.js:3-10 | the log invariant: every record in the log passed the schema and has an id below the bound |
| PrivateMessages.AllStoredAppend | models/PrivateMessage.js:9 | appending a valid record with the next id keeps the log invariant, with the bound past that id |
| PrivateMessages.AllStoredRaise | models/PrivateMessage.js:9 | raising the id bound keeps the log invariant |
| History.RoomHistory | server.js:99-107 | the room history is exactly the room's messages, each as often as in the log, in ascending `date_sent` order |
| History.Conversation | server.js:117-124 | the conversation is exactly the messages between the two users in either direction, each as often as in the log, in ascending `date_sent` order |
| History.PrivateHistory | server.js:109-130 | 400 exactly when either name is empty; otherwise the conversation between the two users |
| History.ConversationSymmetric | server.js:117-122 | the conversation is the same whichever user asks |
| History.StoredRoomMessageInHistory | server.js:102 | an appended group message appears in its own room's history and in no other |
| History.StoredPrivateMessageInHistory | server.js:117-124 | an appended private message appears in the conversation of its two users, asked by either |
| Sorting.Filter | server.js:102 | the database filter keeps exactly the matching records, each as often as in the log |
| Sorting.SortBy | server.js:102 | a sort by a total preorder returns a sorted permutation of its input |

## Left out

- Signup and login (server.js:34-86): credential handling against the user store, an external collaborator.
- The user directory read (server.js:88-97): it reads the external user store, which is not part of this model.
- Express routing, the MongoDB connection and server startup (server.js:1-31, 272-284): I/O and library plumbing.
- The 500 responses of the history reads: database failure on a read is I/O.
- The socket.io transport: delivery is not modelled. An emitted event records its target, and `Recipients` says which live sockets that target names.
- Interleaving while a handler awaits `create` (server.js:188, 213): each handler runs to completion before the next starts. In the source, the socket's room can change, or the socket can disconnect, between the room check and the emit.
- `new Date().toISOString()`: a timestamp is the natural-number parameter `now`. Its string format is not modelled.
- Database ObjectIds: one counter `nextId` shared by both collections stands in for them.
- Event payloads that are not strings (numbers, objects, arrays given as a username or message): every text field is a string, and an absent field is "".
- `Boolean(isTyping)` on NaN, objects and big integers: `JsValue` covers undefined, null, booleans, integer numbers and strings.
- Strings with unpaired surrogates: a Dafny `char` is a Unicode scalar value, so such strings cannot be written, and `Length` counts code units of well-formed strings only.
- History.RoomHistory: the order among messages with equal `date_sent` is not stated or proved; `.sort({ date_sent: 1 })` (server.js:102) leaves it to the database.
- History.Conversation: the order among messages with equal `date_sent` is not stated or proved, as for RoomHistory (server.js:123).
- A socket event sent with no payload or with `null`: each handler destructures its argument (server.js:133, 141, 167, 182, 199, 207, 234), so it throws a TypeError, an unhandled rejection in the two `async` handlers. The model's handlers always receive their fields, so this failure is not modelled.
