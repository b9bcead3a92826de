/**
  The socket event coordinator of server.js: one handler per inbound socket
  event, each a guarded transition of the presence registry, the per-socket
  fields `socket.data.room` and `socket.data.username`, and the message log,
  that emits outbound events. Emitted events go to an outbox, each tagged with
  the target the source addresses it to; `Recipients` resolves a target against
  the live sockets and their rooms. Every handler runs to completion before the
  next one starts. Timestamps are the parameter `now`; whether the database
  accepts a write that passes the schema is the parameter `storeOk`.
 */
module Coordinator {
  import opened Wrappers
  import Presence
  import GroupMessages
  import PrivateMessages

  type SocketId = Presence.SocketId

  /** `PREDEFINED_ROOMS`: the only rooms a socket may join. */
  const PredefinedRooms: seq<string> := ["devops", "cloud computing", "covid19", "sports", "nodeJS"]

  /** A JavaScript value as far as `Boolean(v)` is concerned (NaN and objects are not modelled). */
  datatype JsValue = Undefined | Null | Bool(b: bool) | Number(n: int) | Str(s: string)

  /** `Boolean(v)`: ToBoolean of section 7.1.2 of ECMA-262. */
  function ToBoolean(v: JsValue): (r: bool)
    ensures !r <==> v in {Undefined, Null, Bool(false), Number(0), Str("")}
  {
    match v
    case Undefined => false
    case Null => false
    case Bool(b) => b
    case Number(n) => n != 0
    case Str(s) => s != ""
  }

  /** Where an emitted event goes. */
  datatype Target =
    | AllSockets                                   // io.emit(...)
    | ToRoom(room: string)                         // io.to(room).emit(...)
    | ToRoomExcept(room: string, except: SocketId) // socket.to(room).emit(...): the room minus the emitting socket
    | ToSocket(socket: SocketId)                   // io.to(socketId).emit(...)

  /** The outbound events and their payloads. */
  datatype Payload =
    | OnlineUsers(usernames: seq<string>)                                // 'online-users'
    | RoomSystemMessage(room: string, message: string, date_sent: nat)  // 'room-system-message'
    | RoomMessage(groupRecord: GroupMessages.Record)                       // 'room-message'
    | PrivateMessage(privateRecord: PrivateMessages.Record)                   // 'private-message'
    | TypingRoom(username: string, room: string, isTyping: bool)         // 'typing-room'
    | TypingPrivate(from_user: string, to_user: string, isTyping: bool)  // 'typing-private'

  datatype Event = Emit(target: Target, payload: Payload)

  /** The live sockets an event to `t` reaches, given each socket's current room. */
  function Recipients(t: Target, sockets: set<SocketId>, rooms: map<SocketId, string>): (r: set<SocketId>)
    ensures r <= sockets
    ensures t.ToRoomExcept? ==> t.except !in r
    ensures t.ToSocket? ==> r <= {t.socket}
    ensures forall c :: c in r && !t.AllSockets? && !t.ToSocket? ==> c in rooms && rooms[c] == t.room
  {
    match t
    case AllSockets => sockets
    case ToRoom(room) => set c | c in sockets && c in rooms && rooms[c] == room
    case ToRoomExcept(room, x) => set c | c in sockets && c in rooms && rooms[c] == room && c != x
    case ToSocket(x) => if x in sockets then {x} else {}
  }

  /** `if (socketId) io.to(socketId).emit(...)` after a registry lookup. */
  function SendTo(socket: Option<SocketId>, p: Payload): seq<Event>
  {
    if socket.Some? then [Emit(ToSocket(socket.value), p)] else []
  }

  /** The live sockets that at least one of the events `es` reaches. */
  function Reached(es: seq<Event>, sockets: set<SocketId>, rooms: map<SocketId, string>): set<SocketId>
  {
    set i, c | 0 <= i < |es| && c in Recipients(es[i].target, sockets, rooms) :: c
  }

  /**
    A send after a registry lookup carries its payload and reaches the looked-up
    socket if it is still connected, and no other socket.
   */
  lemma SendToReaches(socket: Option<SocketId>, p: Payload, sockets: set<SocketId>, rooms: map<SocketId, string>)
    ensures forall e :: e in SendTo(socket, p) ==> e.payload == p
    ensures Reached(SendTo(socket, p), sockets, rooms) == if socket.Some? && socket.value in sockets then {socket.value} else {}
  {
    var es := SendTo(socket, p);
    if socket.Some? && socket.value in sockets {
      assert socket.value in Recipients(es[0].target, sockets, rooms);
    }
  }

  /** The guard of 'join-room' (server.js:142). */
  predicate JoinAccepted(username: string, room: string)
  {
    username != "" && room != "" && room in PredefinedRooms
  }

  /**
    The connected sockets all have ids below `nextSocket`, only they carry
    `socket.data`, and a stored room is never "" (so `if (socket.data.room)`
    is "the socket has a room").
   */
  ghost predicate SessionsValid(sockets: set<SocketId>, nextSocket: SocketId,
                                dataRoom: map<SocketId, string>, dataUsername: map<SocketId, string>)
  {
    && dataRoom.Keys <= sockets
    && dataUsername.Keys <= sockets
    && (forall c :: c in dataRoom ==> dataRoom[c] != "")
    && (forall c :: c in sockets ==> c < nextSocket)
  }

  /** Every stored message passed its schema and has an id below `nextId`. */
  ghost predicate LogValid(groupLog: seq<GroupMessages.Record>, privateLog: seq<PrivateMessages.Record>, nextId: nat)
  {
    && GroupMessages.AllStored(groupLog, nextId)
    && PrivateMessages.AllStored(privateLog, nextId)
  }

  class Server {
    /** The connected sockets. */
    var sockets: set<SocketId>
    /** The id the next connection receives. */
    var nextSocket: SocketId
    /** `socket.data.room` of each socket that has one; also the socket's transport room. */
    var dataRoom: map<SocketId, string>
    /** `socket.data.username` of each socket that has joined a room. */
    var dataUsername: map<SocketId, string>
    /** `activeUsers`, in insertion order. */
    var activeUsers: seq<Presence.Entry>
    /** The GroupMessage collection, in insertion order. */
    var groupLog: seq<GroupMessages.Record>
    /** The PrivateMessage collection, in insertion order. */
    var privateLog: seq<PrivateMessages.Record>
    /** The id the next stored message receives. */
    var nextId: nat
    /** Every event emitted so far. */
    var outbox: seq<Event>

    ghost predicate Valid()
      reads this`sockets, this`nextSocket, this`dataRoom, this`dataUsername
      reads this`activeUsers, this`groupLog, this`privateLog, this`nextId
    {
      && SessionsValid(sockets, nextSocket, dataRoom, dataUsername)
      && Presence.WellFormed(activeUsers, nextSocket)
      && LogValid(groupLog, privateLog, nextId)
    }

    /**
      A socket's current room is always a predefined one. Only `join-room`
      adds rooms, so every other handler keeps this by its frame.
     */
    ghost predicate RoomsPredefined()
      reads this`dataRoom
    {
      forall c :: c in dataRoom ==> dataRoom[c] in PredefinedRooms
    }

    /** The members of `room`: the sockets whose current room it is. */
    function Members(room: string): set<SocketId>
      reads this
    {
      Recipients(ToRoom(room), sockets, dataRoom)
    }

    /** A server that has just started: no sockets, no users, empty logs. */
    constructor ()
      ensures Valid() && RoomsPredefined()
      ensures sockets == {} && dataRoom == map[] && dataUsername == map[]
      ensures activeUsers == [] && groupLog == [] && privateLog == [] && outbox == []
    {
      sockets, nextSocket := {}, 0;
      dataRoom, dataUsername := map[], map[];
      activeUsers := [];
      groupLog, privateLog, nextId := [], [], 0;
      outbox := [];
    }

    /** `io.on('connection')`: a new socket with empty `socket.data`; nothing is emitted. */
    method Connect() returns (s: SocketId)
      requires Valid()
      modifies this`sockets, this`nextSocket
      ensures Valid()
      ensures s !in old(sockets) && sockets == old(sockets) + {s}
      ensures s !in dataRoom && s !in dataUsername
    {
      s := nextSocket;
      sockets := sockets + {s};
      nextSocket := nextSocket + 1;
    }

    /**
      'register-user' (server.js:133-139): a non-empty username now maps to this
      socket, replacing any earlier socket, and the sorted list of registered
      usernames goes to every socket. An empty username is dropped.
     */
    method RegisterUser(s: SocketId, username: string)
      requires Valid() && s in sockets
      modifies this`activeUsers, this`outbox
      ensures Valid()
      ensures username == "" ==> activeUsers == old(activeUsers) && outbox == old(outbox)
      ensures username != "" ==>
        && activeUsers == Presence.Set(old(activeUsers), username, s)
        && outbox == old(outbox) + [Emit(AllSockets, OnlineUsers(Presence.OnlineUsers(activeUsers)))]
      ensures username != "" ==> Presence.Get(activeUsers, username) == Some(s)
      ensures forall v :: v != username ==> Presence.Get(activeUsers, v) == Presence.Get(old(activeUsers), v)
    {
      if username == "" {
        return;
      }
      ghost var before := activeUsers;
      Presence.SetWellFormed(activeUsers, username, s, nextSocket);
      activeUsers := Presence.Set(activeUsers, username, s);
      assert forall v :: v != username ==> Presence.Get(activeUsers, v) == Presence.Get(before, v);
      outbox := outbox + [Emit(AllSockets, OnlineUsers(Presence.OnlineUsers(activeUsers)))];
    }

    /**
      'join-room' (server.js:141-165). Dropped unless the username and room are
      non-empty and the room is predefined. Otherwise: if the socket has a
      current room, it leaves it and the rest of that room is told
      "<username> left the room." (even when the current room is the one being
      joined); then the socket is in `room`, and everyone in `room`, the joiner
      included, is told "<username> joined the room.".
     */
    method JoinRoom(s: SocketId, username: string, room: string, now: nat)
      requires Valid() && s in sockets
      modifies this`dataRoom, this`dataUsername, this`outbox
      ensures Valid()
      ensures old(RoomsPredefined()) ==> RoomsPredefined()
      ensures !JoinAccepted(username, room) ==>
        dataRoom == old(dataRoom) && dataUsername == old(dataUsername) && outbox == old(outbox)
      ensures JoinAccepted(username, room) ==>
        && dataRoom == old(dataRoom)[s := room]
        && dataUsername == old(dataUsername)[s := username]
        && outbox == old(outbox)
          + (if s in old(dataRoom)
             then [Emit(ToRoomExcept(old(dataRoom)[s], s),
                        RoomSystemMessage(old(dataRoom)[s], username + " left the room.", now))]
             else [])
          + [Emit(ToRoom(room), RoomSystemMessage(room, username + " joined the room.", now))]
      ensures JoinAccepted(username, room) ==> s in Members(room)
      ensures JoinAccepted(username, room) && s in old(dataRoom) ==> |outbox| == |old(outbox)| + 2
    {
      if username == "" || room == "" || room !in PredefinedRooms {
        return;
      }
      // Leaving the current room and joining the new one replace the socket's room.
      var left: seq<Event> := [];
      if s in dataRoom {
        var currentRoom := dataRoom[s];
        left := [Emit(ToRoomExcept(currentRoom, s), RoomSystemMessage(currentRoom, username + " left the room.", now))];
      }
      dataUsername := dataUsername[s := username];
      dataRoom := dataRoom[s := room];
      outbox := outbox + left + [Emit(ToRoom(room), RoomSystemMessage(room, username + " joined the room.", now))];
    }

    /**
      'leave-room' (server.js:167-180). Acts only when `room` is non-empty and
      is the socket's current room: the socket then has no room and the rest of
      the room is told "<username or 'A user'> left the room.".
     */
    method LeaveRoom(s: SocketId, username: string, room: string, now: nat)
      requires Valid() && s in sockets
      modifies this`dataRoom, this`outbox
      ensures Valid()
      ensures old(RoomsPredefined()) ==> RoomsPredefined()
      ensures !(room != "" && s in old(dataRoom) && old(dataRoom)[s] == room) ==>
        dataRoom == old(dataRoom) && outbox == old(outbox)
      ensures room != "" && s in old(dataRoom) && old(dataRoom)[s] == room ==>
        && dataRoom == old(dataRoom) - {s}
        && outbox == old(outbox)
          + [Emit(ToRoom(room), RoomSystemMessage(room, (if username == "" then "A user" else username) + " left the room.", now))]
        && s !in Members(room)
        && Members(room) == old(Members(room)) - {s}
    {
      if room == "" || s !in dataRoom || dataRoom[s] != room {
        return;
      }
      dataRoom := dataRoom - {s};
      outbox := outbox + [Emit(ToRoom(room), RoomSystemMessage(room, (if username == "" then "A user" else username) + " left the room.", now))];
    }

    /**
      `GroupMessage.create` against the collection: the record is built from
      the fields and, if the schema accepts it and the database write
      succeeds (`storeOk`), appended with the next id. Returns the stored
      record, or None when nothing was stored.
     */
    method StoreGroup(f: GroupMessages.Fields, now: nat, storeOk: bool) returns (r: Option<GroupMessages.Record>)
      requires Valid()
      modifies this`groupLog, this`nextId
      ensures Valid()
      ensures var created := GroupMessages.Create(f, old(nextId), now);
        if storeOk && created.Success? then
          && r == Some(created.value)
          && groupLog == old(groupLog) + [created.value]
          && nextId == old(nextId) + 1
        else
          r == None && groupLog == old(groupLog) && nextId == old(nextId)
    {
      var created := GroupMessages.Create(f, nextId, now);
      if !storeOk || created.Failure? {
        return None;
      }
      var record := created.value;
      var id := nextId + 1;
      GroupMessages.AllStoredAppend(groupLog, record, nextId);
      PrivateMessages.AllStoredRaise(privateLog, nextId, id);
      groupLog, nextId := groupLog + [record], id;
      return Some(record);
    }

    /** `PrivateMessage.create` against the collection, as StoreGroup. */
    method StorePrivate(f: PrivateMessages.Fields, now: nat, storeOk: bool) returns (r: Option<PrivateMessages.Record>)
      requires Valid()
      modifies this`privateLog, this`nextId
      ensures Valid()
      ensures var created := PrivateMessages.Create(f, old(nextId), now);
        if storeOk && created.Success? then
          && r == Some(created.value)
          && privateLog == old(privateLog) + [created.value]
          && nextId == old(nextId) + 1
        else
          r == None && privateLog == old(privateLog) && nextId == old(nextId)
    {
      var created := PrivateMessages.Create(f, nextId, now);
      if !storeOk || created.Failure? {
        return None;
      }
      var record := created.value;
      var id := nextId + 1;
      PrivateMessages.AllStoredAppend(privateLog, record, nextId);
      GroupMessages.AllStoredRaise(groupLog, nextId, id);
      privateLog, nextId := privateLog + [record], id;
      return Some(record);
    }

    /**
      'send-room-message' (server.js:182-197). Dropped unless all three fields
      are non-empty and `room` is the socket's current room. Otherwise the
      message is created; if the schema or the database rejects it nothing
      more happens, else the stored record is appended to the log and goes to
      every member of the room, the sender included.
     */
    method SendRoomMessage(s: SocketId, from_user: string, room: string, message: string, now: nat, storeOk: bool)
      requires Valid() && s in sockets
      modifies this`groupLog, this`nextId, this`outbox
      ensures Valid()
      ensures
        var accepted := from_user != "" && room != "" && message != "" && s in dataRoom && dataRoom[s] == room;
        var saved := GroupMessages.Create(GroupMessages.Fields(from_user, room, message), old(nextId), now);
        if accepted && storeOk && saved.Success? then
          && groupLog == old(groupLog) + [saved.value]
          && nextId == old(nextId) + 1
          && outbox == old(outbox) + [Emit(ToRoom(room), RoomMessage(saved.value))]
          && s in Members(room)
        else
          groupLog == old(groupLog) && nextId == old(nextId) && outbox == old(outbox)
    {
      if from_user == "" || room == "" || message == "" || s !in dataRoom || dataRoom[s] != room {
        return;
      }
      var saved := StoreGroup(GroupMessages.Fields(from_user, room, message), now, storeOk);
      if saved.None? {
        return;
      }
      outbox := outbox + [Emit(ToRoom(room), RoomMessage(saved.value))];
    }

    /**
      'typing-room' (server.js:199-205). Dropped unless the username and room
      are non-empty and `room` is the socket's current room; otherwise the
      typing state, coerced to a boolean, goes to the room minus the sender.
     */
    method TypingRoomEvent(s: SocketId, username: string, room: string, isTyping: JsValue)
      requires Valid() && s in sockets
      modifies this`outbox
      ensures !(username != "" && room != "" && s in dataRoom && dataRoom[s] == room) ==> outbox == old(outbox)
      ensures username != "" && room != "" && s in dataRoom && dataRoom[s] == room ==>
        && outbox == old(outbox) + [Emit(ToRoomExcept(room, s), TypingRoom(username, room, ToBoolean(isTyping)))]
        && s !in Recipients(outbox[|outbox| - 1].target, sockets, dataRoom)
    {
      if username == "" || room == "" || s !in dataRoom || dataRoom[s] != room {
        return;
      }
      outbox := outbox + [Emit(ToRoomExcept(room, s), TypingRoom(username, room, ToBoolean(isTyping)))];
    }

    /**
      'send-private-message' (server.js:207-232). Dropped if a field is empty.
      Otherwise the message is created; if the schema or the database rejects
      it nothing more happens, else the record is appended to the log and the
      same payload goes to the sender's registered socket and then to the
      recipient's, each only if registered (so to no one if neither is).
     */
    method SendPrivateMessage(from_user: string, to_user: string, message: string, now: nat, storeOk: bool)
      requires Valid()
      modifies this`privateLog, this`nextId, this`outbox
      ensures Valid()
      ensures
        var accepted := from_user != "" && to_user != "" && message != "";
        var saved := PrivateMessages.Create(PrivateMessages.Fields(from_user, to_user, message), old(nextId), now);
        if accepted && storeOk && saved.Success? then
          && privateLog == old(privateLog) + [saved.value]
          && nextId == old(nextId) + 1
          && outbox == old(outbox)
            + SendTo(Presence.Get(activeUsers, from_user), PrivateMessage(saved.value))
            + SendTo(Presence.Get(activeUsers, to_user), PrivateMessage(saved.value))
        else
          privateLog == old(privateLog) && nextId == old(nextId) && outbox == old(outbox)
    {
      if from_user == "" || to_user == "" || message == "" {
        return;
      }
      var saved := StorePrivate(PrivateMessages.Fields(from_user, to_user, message), now, storeOk);
      if saved.None? {
        return;
      }
      var payload := PrivateMessage(saved.value);
      var senderSocketId := Presence.Get(activeUsers, from_user);
      var recipientSocketId := Presence.Get(activeUsers, to_user);
      outbox := outbox + SendTo(senderSocketId, payload) + SendTo(recipientSocketId, payload);
    }

    /**
      'typing-private' (server.js:234-247). Dropped if either name is empty;
      otherwise the typing state goes to the recipient's registered socket, or
      nowhere if the recipient is not registered.
     */
    method TypingPrivateEvent(from_user: string, to_user: string, isTyping: JsValue)
      modifies this`outbox
      ensures from_user == "" || to_user == "" ==> outbox == old(outbox)
      ensures from_user != "" && to_user != "" ==>
        outbox == old(outbox) + SendTo(Presence.Get(activeUsers, to_user), TypingPrivate(from_user, to_user, ToBoolean(isTyping)))
    {
      if from_user == "" || to_user == "" {
        return;
      }
      var recipientSocketId := Presence.Get(activeUsers, to_user);
      if recipientSocketId.Some? {
        outbox := outbox + [Emit(ToSocket(recipientSocketId.value), TypingPrivate(from_user, to_user, ToBoolean(isTyping)))];
      }
    }

    /**
      The registry scan of 'disconnect' (server.js:251-257): the first entry,
      in insertion order, whose socket is `s` is deleted and its username
      returned; without one the registry is unchanged.
     */
    method Unregister(s: SocketId) returns (username: Option<string>)
      requires Valid()
      modifies this`activeUsers
      ensures Valid()
      ensures Presence.FirstWithSocket(old(activeUsers), s).None? ==>
        username == None && activeUsers == old(activeUsers)
      ensures Presence.FirstWithSocket(old(activeUsers), s).Some? ==>
        var i := Presence.FirstWithSocket(old(activeUsers), s).value;
        && username == Some(old(activeUsers)[i].username)
        && activeUsers == Presence.RemoveAt(old(activeUsers), i)
    {
      var found := Presence.FindBySocket(activeUsers, s);
      if found.None? {
        return None;
      }
      var i := found.value;
      username := Some(activeUsers[i].username);
      Presence.RemoveWellFormed(activeUsers, i, nextSocket);
      activeUsers := Presence.RemoveAt(activeUsers, i);
    }

    /**
      'disconnect' (server.js:249-269). The transport first drops the socket
      and takes it out of its room; `socket.data.room` is still readable. The
      handler scans the registry in insertion order for the first entry whose
      socket is this one and deletes it. If there was none (the socket never
      registered, or its username was registered again from another socket)
      nothing is emitted. Otherwise the new sorted username list goes to every
      socket and, if the socket had a room, the rest of that room is told
      "<username> disconnected.".
     */
    method Disconnect(s: SocketId, now: nat)
      requires Valid() && s in sockets
      modifies this`sockets, this`dataRoom, this`dataUsername, this`activeUsers, this`outbox
      ensures Valid()
      ensures old(RoomsPredefined()) ==> RoomsPredefined()
      ensures sockets == old(sockets) - {s}
      ensures dataRoom == old(dataRoom) - {s} && dataUsername == old(dataUsername) - {s}
      ensures Presence.FirstWithSocket(old(activeUsers), s).None? ==>
        activeUsers == old(activeUsers) && outbox == old(outbox)
      ensures Presence.FirstWithSocket(old(activeUsers), s).Some? ==>
        var i := Presence.FirstWithSocket(old(activeUsers), s).value;
        var username := old(activeUsers)[i].username;
        && activeUsers == Presence.RemoveAt(old(activeUsers), i)
        && outbox == old(outbox)
          + [Emit(AllSockets, OnlineUsers(Presence.OnlineUsers(activeUsers)))]
          + (if s in old(dataRoom)
             then [Emit(ToRoom(old(dataRoom)[s]), RoomSystemMessage(old(dataRoom)[s], username + " disconnected.", now))]
             else [])
    {
      var room := if s in dataRoom then Some(dataRoom[s]) else None;
      sockets, dataRoom, dataUsername := sockets - {s}, dataRoom - {s}, dataUsername - {s};
      var username := Unregister(s);
      // Registered usernames are never empty, so `if (username)` is "an entry was found".
      if username.Some? {
        outbox := outbox
          + [Emit(AllSockets, OnlineUsers(Presence.OnlineUsers(activeUsers)))]
          + (if room.Some?
             then [Emit(ToRoom(room.value), RoomSystemMessage(room.value, username.value + " disconnected.", now))]
             else []);
      }
    }
  }
}
