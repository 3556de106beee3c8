/**
 * The shared SQLite handle helpers.ts writes through, reduced to its `rooms` and `users` tables,
 * each the sequence of its rows in insertion order. Each method runs the statements of one
 * helper in the helper's order and is proved to do what the function of the same name in module
 * Helpers specifies.
 */
module Session {
  import opened Wrappers
  import opened Sql
  import opened JsString
  import opened Tables
  import opened Helpers

  class Database {
    var rooms: seq<RoomRow>
    var users: seq<UserRow>

    /** Both tables, as the Helpers functions take them. */
    function State(): Store
      reads this
    {
      Store(rooms, users)
    }

    /** A fresh database: both tables empty. */
    constructor ()
      ensures rooms == [] && users == []
    {
      rooms := [];
      users := [];
    }

    /** createRoom: one INSERT into `rooms`; `roomId` and `now` stand for the random hex id and
        `Date.now()`. */
    method CreateRoom(gameId: string, roomId: string, now: int) returns (id: string)
      modifies this
      ensures Outcome(State(), id) == Helpers.CreateRoom(old(State()), gameId, roomId, now)
      ensures users == old(users) && rooms == old(rooms) + [RoomRow(roomId, now, gameId, true)]
    {
      rooms := rooms + [RoomRow(roomId, now, gameId, true)];
      id := roomId;
    }

    /** joinRoom: look the room up by the untrimmed id, count the trimmed room's rows, DELETE the
        socket's rows, INSERT the new user. */
    method JoinRoom(roomId: string, socketId: string, userId: string, userKey: string,
                    createdAt: int, pingAt: int) returns (reply: JoinReply)
      modifies this
      ensures Outcome(State(), reply) == Helpers.JoinRoom(old(State()), roomId, socketId, userId, userKey, createdAt, pingAt)
    {
      var roomTrim := Trim(roomId);
      var room := FetchRoom(rooms, roomId);
      if room.None? {
        return JoinReply(None, None, None);
      }
      var userLength := |Where(users, MemberOf(roomTrim))|;
      users := Delete(users, SocketIs(socketId));
      users := users + [UserRow(userId, roomTrim, createdAt, socketId, userLength == 0, pingAt, userKey)];
      reply := JoinReply(Some(userId), room, Some(userKey));
    }

    /** leaveRoom: SELECT the socket's rows, destructure the first one's userId string, DELETE by
        its first code point. */
    method LeaveRoom(socketId: string) returns (reply: Option<Left>)
      modifies this
      ensures Outcome(State(), reply) == Helpers.LeaveRoom(old(State()), socketId)
    {
      var userList := Where(users, SocketIs(socketId));
      if userList == [] {
        return None;
      }
      var thisUser := userList[0].userId;
      var userId, roomId := Destructured(thisUser, 0), Destructured(thisUser, 1);
      if userId.Some? {
        users := Delete(users, UserIdIs(userId.value));
      }
      reply := Some(Left(userId, roomId));
    }

    /** updatePing: one UPDATE of `lastPingAt` on the socket's rows. */
    method UpdatePing(socketId: string, now: int)
      modifies this
      ensures State() == Helpers.UpdatePing(old(State()), socketId, now)
    {
      users := Update(users, SocketIs(socketId), PingAt(now));
    }
  }
}
