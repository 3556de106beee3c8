/**
 * The two SQLite tables helpers.ts reads and writes, with the columns its SQL names, and the
 * records its functions return. Timestamps are the millisecond numbers of `Date.now()`.
 */
module Tables {

  /** A `rooms` row: (roomId, createdAt, gameId, isWaiting). */
  datatype RoomRow = RoomRow(roomId: string, createdAt: int, gameId: string, isWaiting: bool)

  /** A `users` row: (userId, roomId, createdAt, socketId, isHost, lastPingAt, userKey). */
  datatype UserRow = UserRow(
    userId: string,
    roomId: string,
    createdAt: int,
    socketId: string,
    isHost: bool,
    lastPingAt: int,
    userKey: string)

  /** The `Room` record fetchRoom returns. */
  datatype Room = Room(roomId: string, createdAt: int, gameId: string)

  /** The `User` record the user lookups return. */
  datatype User = User(roomId: string, socketId: string, userId: string, isHost: bool)

  /** The state the helpers work on: both tables. */
  datatype Store = Store(rooms: seq<RoomRow>, users: seq<UserRow>)

  // The WHERE conditions of the statements, one per `column=?` with its bound value.

  function RoomIdIs(roomId: string): RoomRow -> bool
  {
    (r: RoomRow) => r.roomId == roomId
  }

  function MemberOf(roomId: string): UserRow -> bool
  {
    (u: UserRow) => u.roomId == roomId
  }

  function SocketIs(socketId: string): UserRow -> bool
  {
    (u: UserRow) => u.socketId == socketId
  }

  function UserIdIs(userId: string): UserRow -> bool
  {
    (u: UserRow) => u.userId == userId
  }

  function UserKeyIs(userKey: string): UserRow -> bool
  {
    (u: UserRow) => u.userKey == userKey
  }

  /** `SET lastPingAt=?` */
  function PingAt(now: int): UserRow -> UserRow
  {
    (u: UserRow) => u.(lastPingAt := now)
  }
}
