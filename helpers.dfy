/**
 * The room/user session store of helpers.ts. The four lookups are functions of the tables; the
 * four helpers that run DELETE, INSERT or UPDATE statements are given here as functions from the
 * tables before the call to the tables after it and the value returned, which the methods of
 * `Session.Database` are proved to implement. The random ids (`crypto.randomBytes(..)` as hex)
 * and the clock (`Date.now()`) are parameters.
 */
module Helpers {
  import opened Wrappers
  import opened Sql
  import opened JsString
  import opened Tables

  /** The tables after a helper call, and what the call returned. */
  datatype Outcome<R> = Outcome(store: Store, reply: R)

  /** joinRoom's result `{userId, room, userKey}`; all three are null when the room is missing. */
  datatype JoinReply = JoinReply(userId: Option<string>, room: Option<Room>, userKey: Option<string>)

  /** leaveRoom's result `{userId, roomId}`: the first two elements of a destructured string,
      either of which may be `undefined` (None). */
  datatype Left = Left(userId: Option<string>, roomId: Option<string>)

  /** No row of `users` belongs to room `roomId`. */
  predicate IsVacant(users: seq<UserRow>, roomId: string)
  {
    forall i :: 0 <= i < |users| ==> users[i].roomId != roomId
  }

  // ---------------------------------------------------------------------------------------------
  // Lookups

  /** fetchRoom: the first room row with exactly this id (no trimming), or null. */
  function FetchRoom(rooms: seq<RoomRow>, roomId: string): (r: Option<Room>)
    ensures r.None? <==> forall i :: 0 <= i < |rooms| ==> rooms[i].roomId != roomId
    ensures r.Some? ==>
      exists i :: IsFirstMatch(rooms, RoomIdIs(roomId), i) &&
        r.value == Room(roomId, rooms[i].createdAt, rooms[i].gameId)
  {
    var roomList := Where(rooms, RoomIdIs(roomId));
    WhereHead(rooms, RoomIdIs(roomId));
    if roomList == [] then None
    else
      var room := roomList[0];
      Some(Room(room.roomId, room.createdAt, room.gameId))
  }

  /** fetchUserByToken: the first user row holding this key, with its stored host flag. */
  function FetchUserByToken(users: seq<UserRow>, userKey: string): (r: Option<User>)
    ensures r.None? <==> forall i :: 0 <= i < |users| ==> users[i].userKey != userKey
    ensures r.Some? ==>
      exists i :: IsFirstMatch(users, UserKeyIs(userKey), i) &&
        r.value == User(users[i].roomId, users[i].socketId, users[i].userId, users[i].isHost)
  {
    var userList := Where(users, UserKeyIs(userKey));
    WhereHead(users, UserKeyIs(userKey));
    if userList == [] then None
    else
      var row := userList[0];
      Some(User(row.roomId, row.socketId, row.userId, row.isHost))
  }

  /** fetchUserById: the first user row with this id, with its stored host flag. */
  function FetchUserById(users: seq<UserRow>, userId: string): (r: Option<User>)
    ensures r.None? <==> forall i :: 0 <= i < |users| ==> users[i].userId != userId
    ensures r.Some? ==>
      exists i :: IsFirstMatch(users, UserIdIs(userId), i) &&
        r.value == User(users[i].roomId, users[i].socketId, userId, users[i].isHost)
  {
    var userList := Where(users, UserIdIs(userId));
    WhereHead(users, UserIdIs(userId));
    if userList == [] then None
    else
      var row := userList[0];
      Some(User(row.roomId, row.socketId, userId, row.isHost))
  }

  /** fetchUserBySocketId: the first user row bound to this socket. Only roomId and userId are
      selected, so the host flag is read from a column that is not there and is always false. */
  function FetchUserBySocketId(users: seq<UserRow>, socketId: string): (r: Option<User>)
    ensures r.None? <==> forall i :: 0 <= i < |users| ==> users[i].socketId != socketId
    ensures r.Some? ==> !r.value.isHost
    ensures r.Some? ==>
      exists i :: IsFirstMatch(users, SocketIs(socketId), i) &&
        r.value == User(users[i].roomId, socketId, users[i].userId, false)
  {
    var userList := Where(users, SocketIs(socketId));
    WhereHead(users, SocketIs(socketId));
    if userList == [] then None
    else
      var row := userList[0];
      Some(User(row.roomId, socketId, row.userId, false))
  }

  // ---------------------------------------------------------------------------------------------
  // The helpers that write

  /** createRoom: appends a waiting room with the given (random) id, without checking that the id
      is free, and returns the id. */
  function CreateRoom(s: Store, gameId: string, roomId: string, now: int): (o: Outcome<string>)
    ensures o.reply == roomId && o.store.users == s.users
    ensures o.store.rooms == s.rooms + [RoomRow(roomId, now, gameId, true)]
  {
    Outcome(Store(s.rooms + [RoomRow(roomId, now, gameId, true)], s.users), roomId)
  }

  /** joinRoom: the room must exist under the id exactly as given; the new user is then stored
      under the trimmed id, after every row bound to the same socket is deleted, and is host iff
      the trimmed room had no rows before that delete. `createdAt` and `pingAt` are the two
      `Date.now()` readings of the INSERT. */
  function JoinRoom(s: Store, roomId: string, socketId: string, userId: string, userKey: string,
                    createdAt: int, pingAt: int): (o: Outcome<JoinReply>)
    ensures o.store.rooms == s.rooms
    ensures o.reply.userId.None? <==> forall i :: 0 <= i < |s.rooms| ==> s.rooms[i].roomId != roomId
    ensures o.reply.userId.None? ==> o.reply == JoinReply(None, None, None) && o.store == s
    ensures o.reply.userId.Some? ==>
      o.reply == JoinReply(Some(userId), FetchRoom(s.rooms, roomId), Some(userKey)) &&
      o.reply.room.Some?
    ensures o.reply.userId.Some? ==>
      o.store.users == Delete(s.users, SocketIs(socketId)) +
        [UserRow(userId, Trim(roomId), createdAt, socketId, IsVacant(s.users, Trim(roomId)), pingAt, userKey)]
  {
    var room := FetchRoom(s.rooms, roomId);
    if room.None? then Outcome(s, JoinReply(None, None, None))
    else
      var roomTrim := Trim(roomId);
      var userLength := |Where(s.users, MemberOf(roomTrim))|;
      WhereHead(s.users, MemberOf(roomTrim));
      var isHost := userLength == 0;
      var row := UserRow(userId, roomTrim, createdAt, socketId, isHost, pingAt, userKey);
      Outcome(Store(s.rooms, Delete(s.users, SocketIs(socketId)) + [row]), JoinReply(Some(userId), room, Some(userKey)))
  }

  /** leaveRoom: finds the first row bound to the socket, destructures its userId STRING into its
      first two code points, deletes every row whose userId equals the first one, and returns the
      two. An empty userId destructures to undefined, which binds as SQL NULL and deletes nothing. */
  function LeaveRoom(s: Store, socketId: string): (o: Outcome<Option<Left>>)
    ensures o.store.rooms == s.rooms
    ensures o.reply.None? <==> forall i :: 0 <= i < |s.users| ==> s.users[i].socketId != socketId
    ensures o.reply.None? ==> o.store == s
    ensures o.reply.Some? ==>
      exists i :: IsFirstMatch(s.users, SocketIs(socketId), i) &&
        o.reply.value == Left(Destructured(s.users[i].userId, 0), Destructured(s.users[i].userId, 1))
    ensures o.reply.Some? && o.reply.value.userId.None? ==> o.store == s
    ensures o.reply.Some? && o.reply.value.userId.Some? ==>
      o.store.users == Delete(s.users, UserIdIs(o.reply.value.userId.value))
  {
    var userList := Where(s.users, SocketIs(socketId));
    WhereHead(s.users, SocketIs(socketId));
    if userList == [] then Outcome(s, None)
    else
      var thisUser := userList[0].userId;
      var userId := Destructured(thisUser, 0);
      var roomId := Destructured(thisUser, 1);
      var remaining := if userId.Some? then Delete(s.users, UserIdIs(userId.value)) else s.users;
      Outcome(Store(s.rooms, remaining), Some(Left(userId, roomId)))
  }

  /** updatePing: stamps `lastPingAt` on every row bound to the socket; nothing else changes. */
  function UpdatePing(s: Store, socketId: string, now: int): (o: Store)
    ensures o.rooms == s.rooms && |o.users| == |s.users|
    ensures forall i :: 0 <= i < |s.users| ==>
      o.users[i] == if s.users[i].socketId == socketId then s.users[i].(lastPingAt := now) else s.users[i]
  {
    Store(s.rooms, Update(s.users, SocketIs(socketId), PingAt(now)))
  }
}
