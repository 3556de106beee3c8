/**
 * What the helpers of helpers.ts guarantee, and what they fail to, stated over the functions of
 * module Helpers: host assignment, the one-row-per-socket rule, the token round-trip and how
 * long it lasts, what leaveRoom really deletes, and that pings and room creation leave the
 * lookups alone.
 */
module Properties {
  import opened Wrappers
  import opened Sql
  import opened JsString
  import opened Tables
  import opened Helpers

  /** The row a successful joinRoom inserts. */
  function JoinedRow(s: Store, roomId: string, socketId: string, userId: string, userKey: string,
                     createdAt: int, pingAt: int): UserRow
  {
    UserRow(userId, Trim(roomId), createdAt, socketId, IsVacant(s.users, Trim(roomId)), pingAt, userKey)
  }

  /** After a successful join the socket owns exactly one row, the new one, and the socket lookup
      finds it, reporting it as not host whatever its stored flag. */
  lemma JoinLeavesOneSocketRow(s: Store, roomId: string, socketId: string, userId: string,
                               userKey: string, createdAt: int, pingAt: int)
    requires JoinRoom(s, roomId, socketId, userId, userKey, createdAt, pingAt).reply.userId.Some?
    ensures Where(JoinRoom(s, roomId, socketId, userId, userKey, createdAt, pingAt).store.users, SocketIs(socketId))
      == [JoinedRow(s, roomId, socketId, userId, userKey, createdAt, pingAt)]
    ensures FetchUserBySocketId(JoinRoom(s, roomId, socketId, userId, userKey, createdAt, pingAt).store.users, socketId)
      == Some(User(Trim(roomId), socketId, userId, false))
  {
    var users := JoinRoom(s, roomId, socketId, userId, userKey, createdAt, pingAt).store.users;
    var kept := Delete(s.users, SocketIs(socketId));
    var row := JoinedRow(s, roomId, socketId, userId, userKey, createdAt, pingAt);
    assert users == kept + [row];
    WhereAppend(kept, [row], SocketIs(socketId));
    assert Where(kept, SocketIs(socketId)) == [] by {
      WhereHead(kept, SocketIs(socketId));
    }
    assert Where([row], SocketIs(socketId)) == [row];
  }

  /** The member count is taken before the same-socket delete: a socket that rejoins a room of
      which it was the only member becomes that room's only member, and is not host. */
  lemma RejoinAloneLosesHost(s: Store, roomId: string, socketId: string, userId: string,
                             userKey: string, createdAt: int, pingAt: int)
    requires JoinRoom(s, roomId, socketId, userId, userKey, createdAt, pingAt).reply.userId.Some?
    requires exists u :: u in s.users && u.roomId == Trim(roomId)
    requires forall u :: u in s.users && u.roomId == Trim(roomId) ==> u.socketId == socketId
    ensures var row := JoinedRow(s, roomId, socketId, userId, userKey, createdAt, pingAt);
      Where(JoinRoom(s, roomId, socketId, userId, userKey, createdAt, pingAt).store.users, MemberOf(Trim(roomId))) == [row] &&
      !row.isHost
  {
    var users := JoinRoom(s, roomId, socketId, userId, userKey, createdAt, pingAt).store.users;
    var kept := Delete(s.users, SocketIs(socketId));
    var row := JoinedRow(s, roomId, socketId, userId, userKey, createdAt, pingAt);
    var member := MemberOf(Trim(roomId));
    assert users == kept + [row];
    WhereAppend(kept, [row], member);
    assert Where(kept, member) == [] by {
      WhereHead(kept, member);
      forall i | 0 <= i < |kept| ensures !member(kept[i]) {
        assert kept[i] in s.users && kept[i].socketId != socketId;
      }
    }
    assert Where([row], member) == [row];
    assert !row.isHost by {
      var u :| u in s.users && u.roomId == Trim(roomId);
      var k :| 0 <= k < |s.users| && s.users[k] == u;
    }
  }

  /** Into a vacant room, the first of two joins from different sockets succeeds, appends its
      row after deleting the socket's old rows, and is host; the second is not host, and the
      first row survives it. */
  lemma FirstJoinerIsHost(s: Store, roomId: string, socketA: string, idA: string, keyA: string,
                          createdA: int, pingA: int, socketB: string, idB: string, keyB: string,
                          createdB: int, pingB: int)
    requires exists i :: 0 <= i < |s.rooms| && s.rooms[i].roomId == roomId
    requires IsVacant(s.users, Trim(roomId)) && socketA != socketB
    ensures var first := JoinRoom(s, roomId, socketA, idA, keyA, createdA, pingA);
      var rowA := UserRow(idA, Trim(roomId), createdA, socketA, true, pingA, keyA);
      first.reply.userId == Some(idA) &&
      first.store.users == Delete(s.users, SocketIs(socketA)) + [rowA]
    ensures var first := JoinRoom(s, roomId, socketA, idA, keyA, createdA, pingA);
      var second := JoinRoom(first.store, roomId, socketB, idB, keyB, createdB, pingB);
      var rowA := UserRow(idA, Trim(roomId), createdA, socketA, true, pingA, keyA);
      second.reply.userId == Some(idB) &&
      second.store.users == Delete(first.store.users, SocketIs(socketB)) +
        [UserRow(idB, Trim(roomId), createdB, socketB, false, pingB, keyB)] &&
      rowA in second.store.users
  {
    var first := JoinRoom(s, roomId, socketA, idA, keyA, createdA, pingA);
    var rowA := UserRow(idA, Trim(roomId), createdA, socketA, true, pingA, keyA);
    var users := first.store.users;
    assert users == Delete(s.users, SocketIs(socketA)) + [rowA];
    assert users[|users| - 1] == rowA;
    assert !IsVacant(users, Trim(roomId));
    var kept := Delete(users, SocketIs(socketB));
    assert !SocketIs(socketB)(users[|users| - 1]);
    assert rowA in kept;
  }

  /** Round-trip: the key joinRoom hands out finds the new user (trimmed room id, socket, id and
      the computed host flag), unless another surviving row already holds that key. */
  lemma JoinTokenRoundTrip(s: Store, roomId: string, socketId: string, userId: string,
                           userKey: string, createdAt: int, pingAt: int)
    requires JoinRoom(s, roomId, socketId, userId, userKey, createdAt, pingAt).reply.userId.Some?
    requires forall u :: u in s.users && u.socketId != socketId ==> u.userKey != userKey
    ensures FetchUserByToken(JoinRoom(s, roomId, socketId, userId, userKey, createdAt, pingAt).store.users, userKey)
      == Some(User(Trim(roomId), socketId, userId, IsVacant(s.users, Trim(roomId))))
  {
    var users := JoinRoom(s, roomId, socketId, userId, userKey, createdAt, pingAt).store.users;
    var kept := Delete(s.users, SocketIs(socketId));
    var row := JoinedRow(s, roomId, socketId, userId, userKey, createdAt, pingAt);
    assert users == kept + [row];
    WhereAppend(kept, [row], UserKeyIs(userKey));
    assert Where(kept, UserKeyIs(userKey)) == [] by {
      WhereHead(kept, UserKeyIs(userKey));
    }
    assert Where([row], UserKeyIs(userKey)) == [row];
  }

  /** Room codes are checked untrimmed: when every stored code is hex, as createRoom's are, a
      code typed with edge space is refused even if its trimmed form names a room. The body
      spells out the argument; the verifier also finds it unaided. */
  lemma PaddedCodeRefused(s: Store, roomId: string, socketId: string, userId: string,
                          userKey: string, createdAt: int, pingAt: int)
    requires forall i, k :: 0 <= i < |s.rooms| && 0 <= k < |s.rooms[i].roomId| ==> IsHexDigit(s.rooms[i].roomId[k])
    requires !HasNoEdgeSpace(roomId)
    ensures JoinRoom(s, roomId, socketId, userId, userKey, createdAt, pingAt) == Outcome(s, JoinReply(None, None, None))
  {
    forall i | 0 <= i < |s.rooms| ensures s.rooms[i].roomId != roomId {
      var code := s.rooms[i].roomId;
      if code != [] {
        assert IsHexDigit(code[0]) && IsHexDigit(code[|code| - 1]);
      }
    }
  }

  /** A token lookup keeps its answer across a join from another socket. */
  lemma TokenLookupSurvivesJoin(s: Store, key: string, roomId: string, socketId: string,
                                userId: string, userKey: string, createdAt: int, pingAt: int)
    requires FetchUserByToken(s.users, key).Some?
    requires FetchUserByToken(s.users, key).value.socketId != socketId
    ensures FetchUserByToken(JoinRoom(s, roomId, socketId, userId, userKey, createdAt, pingAt).store.users, key)
      == FetchUserByToken(s.users, key)
  {
    var o := JoinRoom(s, roomId, socketId, userId, userKey, createdAt, pingAt);
    if o.reply.userId.Some? {
      var kept := Delete(s.users, SocketIs(socketId));
      var row := JoinedRow(s, roomId, socketId, userId, userKey, createdAt, pingAt);
      WhereAppend(kept, [row], UserKeyIs(key));
      FirstMatchSurvivesDelete(s.users, UserKeyIs(key), SocketIs(socketId));
    }
  }

  /** leaveRoom only deletes rows whose userId is a single code point, so a lookup of a user
      whose id is longer keeps its answer. */
  lemma TokenLookupSurvivesLeave(s: Store, key: string, socketId: string)
    requires FetchUserByToken(s.users, key).Some?
    requires |FetchUserByToken(s.users, key).value.userId| != 1
    ensures FetchUserByToken(LeaveRoom(s, socketId).store.users, key) == FetchUserByToken(s.users, key)
  {
    var o := LeaveRoom(s, socketId);
    if o.reply.Some? && o.reply.value.userId.Some? {
      FirstMatchSurvivesDelete(s.users, UserKeyIs(key), UserIdIs(o.reply.value.userId.value));
    }
  }

  /** leaveRoom deletes nothing while no userId is a single code point (joinRoom's ids are 16 hex
      digits), so a second call for the same socket answers as the first did instead of null. */
  lemma {:induction false} LeaveKeepsLongIds(s: Store, socketId: string)
    requires forall i :: 0 <= i < |s.users| ==> |s.users[i].userId| != 1
    ensures LeaveRoom(s, socketId).store == s
    ensures LeaveRoom(LeaveRoom(s, socketId).store, socketId) == LeaveRoom(s, socketId)
  {
    var o := LeaveRoom(s, socketId);
    if o.reply.Some? && o.reply.value.userId.Some? {
      var c := o.reply.value.userId.value;
      assert |c| == 1;
      WhereAll(s.users, Not(UserIdIs(c)));
    }
  }

  /** A user who joined with an id of two or more code points and then leaves is still there:
      leaveRoom returns the first two code points of the id and the tables are unchanged. */
  lemma JoinThenLeave(s: Store, roomId: string, socketId: string, userId: string,
                      userKey: string, createdAt: int, pingAt: int)
    requires JoinRoom(s, roomId, socketId, userId, userKey, createdAt, pingAt).reply.userId.Some?
    requires |userId| >= 2
    requires forall i :: 0 <= i < |s.users| ==> |s.users[i].userId| != 1
    ensures var joined := JoinRoom(s, roomId, socketId, userId, userKey, createdAt, pingAt).store;
      LeaveRoom(joined, socketId) == Outcome(joined, Some(Left(Some([userId[0]]), Some([userId[1]]))))
  {
    var joined := JoinRoom(s, roomId, socketId, userId, userKey, createdAt, pingAt).store;
    var kept := Delete(s.users, SocketIs(socketId));
    var row := JoinedRow(s, roomId, socketId, userId, userKey, createdAt, pingAt);
    assert joined.users == kept + [row];
    forall i | 0 <= i < |joined.users| ensures |joined.users[i].userId| != 1 {
      if i < |kept| {
        assert joined.users[i] == kept[i] && kept[i] in s.users;
      }
    }
    LeaveKeepsLongIds(joined, socketId);
    JoinLeavesOneSocketRow(s, roomId, socketId, userId, userKey, createdAt, pingAt);
    WhereHead(joined.users, SocketIs(socketId));
  }

  /** A ping is invisible to the token lookup. */
  lemma PingKeepsTokenLookup(s: Store, socketId: string, now: int, key: string)
    ensures FetchUserByToken(UpdatePing(s, socketId, now).users, key) == FetchUserByToken(s.users, key)
  {
    var p, f, q := SocketIs(socketId), PingAt(now), UserKeyIs(key);
    WhereUpdate(s.users, p, f, q);
    var w := Where(s.users, q);
    if w != [] {
      assert Update(w, p, f)[0].userKey == w[0].userKey;
    }
  }

  /** A ping is invisible to the id lookup. */
  lemma PingKeepsIdLookup(s: Store, socketId: string, now: int, id: string)
    ensures FetchUserById(UpdatePing(s, socketId, now).users, id) == FetchUserById(s.users, id)
  {
    var p, f, q := SocketIs(socketId), PingAt(now), UserIdIs(id);
    WhereUpdate(s.users, p, f, q);
    var w := Where(s.users, q);
    if w != [] {
      assert Update(w, p, f)[0].userId == w[0].userId;
    }
  }

  /** A ping is invisible to the socket lookup. The body spells out the argument; the verifier
      also finds it unaided. */
  lemma PingKeepsSocketLookup(s: Store, socketId: string, now: int, socket: string)
    ensures FetchUserBySocketId(UpdatePing(s, socketId, now).users, socket) == FetchUserBySocketId(s.users, socket)
  {
    var p, f, q := SocketIs(socketId), PingAt(now), SocketIs(socket);
    WhereUpdate(s.users, p, f, q);
    var w := Where(s.users, q);
    if w != [] {
      assert Update(w, p, f)[0].socketId == w[0].socketId;
    }
  }

  /** createRoom does not check that its id is free: the new room is what fetchRoom finds under
      its id only if no earlier room has that id, and every other id's lookup is unchanged. */
  lemma CreateThenFetch(s: Store, gameId: string, roomId: string, now: int, other: string)
    ensures var rooms := CreateRoom(s, gameId, roomId, now).store.rooms;
      FetchRoom(rooms, roomId) ==
        (if FetchRoom(s.rooms, roomId).None? then Some(Room(roomId, now, gameId)) else FetchRoom(s.rooms, roomId))
    ensures other != roomId ==> FetchRoom(CreateRoom(s, gameId, roomId, now).store.rooms, other) == FetchRoom(s.rooms, other)
  {
    var row := RoomRow(roomId, now, gameId, true);
    WhereAppend(s.rooms, [row], RoomIdIs(roomId));
    WhereAppend(s.rooms, [row], RoomIdIs(other));
    WhereHead(s.rooms, RoomIdIs(roomId));
    WhereHead(s.rooms, RoomIdIs(other));
  }

  /** Two rows that are both host of the same room. */
  predicate CoHosts(u: UserRow, v: UserRow)
  {
    u.isHost && v.isHost && u.roomId == v.roomId
  }

  /** No room has two host rows. joinRoom marks a row host only when its room has no rows at
      all, and no other helper sets isHost or moves a row to another room. */
  ghost predicate AtMostOneHost(users: seq<UserRow>)
  {
    NoPair(users, CoHosts)
  }

  /** joinRoom keeps at most one host per room. */
  lemma JoinKeepsOneHost(s: Store, roomId: string, socketId: string, userId: string,
                         userKey: string, createdAt: int, pingAt: int)
    requires AtMostOneHost(s.users)
    ensures AtMostOneHost(JoinRoom(s, roomId, socketId, userId, userKey, createdAt, pingAt).store.users)
  {
    var o := JoinRoom(s, roomId, socketId, userId, userKey, createdAt, pingAt);
    if o.reply.userId.Some? {
      var users := o.store.users;
      var kept := Delete(s.users, SocketIs(socketId));
      var row := JoinedRow(s, roomId, socketId, userId, userKey, createdAt, pingAt);
      assert users == kept + [row];
      WhereKeepsNoPair(s.users, Not(SocketIs(socketId)), CoHosts);
      forall i, j | 0 <= i < j < |users| ensures !CoHosts(users[i], users[j]) {
        if j < |kept| {
          assert users[i] == kept[i] && users[j] == kept[j];
        } else {
          assert users[i] == kept[i] && users[j] == row;
          if row.isHost {
            assert kept[i] in s.users;
            var k :| 0 <= k < |s.users| && s.users[k] == kept[i];
          }
        }
      }
    }
  }

  /** leaveRoom keeps at most one host per room: it only deletes. */
  lemma LeaveKeepsOneHost(s: Store, socketId: string)
    requires AtMostOneHost(s.users)
    ensures AtMostOneHost(LeaveRoom(s, socketId).store.users)
  {
    var o := LeaveRoom(s, socketId);
    if o.reply.Some? && o.reply.value.userId.Some? {
      WhereKeepsNoPair(s.users, Not(UserIdIs(o.reply.value.userId.value)), CoHosts);
    }
  }

  /** updatePing keeps at most one host per room: it changes neither isHost nor roomId. */
  lemma PingKeepsOneHost(s: Store, socketId: string, now: int)
    requires AtMostOneHost(s.users)
    ensures AtMostOneHost(UpdatePing(s, socketId, now).users)
  {
    var users := UpdatePing(s, socketId, now).users;
    forall i, j | 0 <= i < j < |users| ensures !CoHosts(users[i], users[j]) {
      assert !CoHosts(s.users[i], s.users[j]);
    }
  }

  /** createRoom keeps at most one host per room: it does not touch `users`. */
  lemma CreateKeepsOneHost(s: Store, gameId: string, roomId: string, now: int)
    requires AtMostOneHost(s.users)
    ensures AtMostOneHost(CreateRoom(s, gameId, roomId, now).store.users)
  {
  }
}
