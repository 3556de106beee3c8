# Room/user session store of cool-connect-v2

This project models `helpers.ts`, the session store of a Socket.IO game server. Rooms are
identified by a short code. Users join a room from a socket connection and hold a secret key
(`userKey`) that authorises their later actions. The helpers keep two SQLite tables, `rooms` and
`users`, and change them with plain SQL statements.

The model keeps each table as the sequence of its rows in insertion order, so "the first row a
SELECT returns" has a meaning:

- `Sql` holds the three statement kinds: `Where` for SELECT, `Delete` and `Update`.
- `JsString` holds the JavaScript string behaviour the helpers depend on: `trim` and array
  destructuring of a string.
- `Tables` holds the rows and the records the helpers return.
- `Helpers` gives each helper as a function. The four lookups are functions of the tables. The
  four writers (`createRoom`, `joinRoom`, `leaveRoom`, `updatePing`) are functions from the
  tables before the call to the tables after it and the value returned.
- `Session.Database` is a class holding both tables as fields. Its methods run each writer's
  statements in the source's order, and each is proved equal to its `Helpers` function.
- `Properties` states what the helpers guarantee across calls.

Random ids (`crypto.randomBytes(n).toString("hex")`) and `Date.now()` are method parameters.
`joinRoom` reads `Date.now()` twice, so it takes two timestamps.

The code's quirks are modelled as written:
- `joinRoom` checks the room with the untrimmed code but stores the trimmed one.
- `joinRoom` counts the room's members before it deletes the caller's old rows. A socket that
  rejoins a room where it was the only member is therefore not host, and nobody in that room is.
- `leaveRoom` destructures the userId string, so it returns the id's first two code points and
  deletes by the first one. With the 16-character ids that `joinRoom` generates, it deletes
  nothing. A JavaScript `undefined` key binds as SQL NULL and matches no row.
- `fetchUserBySocketId` reads a column its SELECT does not have, so it never reports a host.

Consequences of the code that a reader might not expect, each proved:
- `leaveRoom` does not remove its caller. With the 16-character ids `joinRoom` issues, it deletes
  nothing, and a second call returns the same answer instead of null
  (`Properties.LeaveKeepsLongIds`, `Properties.JoinThenLeave`).
- Host status is decided by counting every row of the room, including the caller's own rows that
  the next statement deletes. A room can therefore be left with a single member who is not host
  (`Properties.RejoinAloneLosesHost`).
- `createRoom` does not check that its random code is free. A duplicate code hides the new room
  from `fetchRoom` (`Properties.CreateThenFetch`).
- `joinRoom` never reads `isWaiting`, so a room accepts joins whatever that column holds.

One invariant holds across every helper: no room has two host rows
(`Properties.AtMostOneHost`). `joinRoom` inserts a host row only when its count of the room's
rows is zero (helpers.ts:40-45, 58), and every row it keeps was counted. `leaveRoom` only deletes
rows, `updatePing` sets only `lastPingAt`, and `createRoom` does not touch `users`. The lemmas
`JoinKeepsOneHost`, `LeaveKeepsOneHost`, `PingKeepsOneHost` and `CreateKeepsOneHost` prove this.

## Model

| member | source | states |
|---|---|---|
| Sql.Where | helpers.ts:40-45 | A SELECT returns only matching rows of the table, and every matching row |
| Sql.Delete | helpers.ts:48 | A DELETE keeps exactly the rows that do not match |
| Sql.Update | helpers.ts:83-88 | An UPDATE rewrites each matching row in place and leaves the others and the row count unchanged |
| Sql.WhereHead | helpers.ts:17-21 | A SELECT is empty iff no row matches; otherwise its row 0 is the first matching row of the table |
| Sql.WhereAppend | helpers.ts:54-58 | Selecting from a table with a row appended selects from the old table, then from the new row |
| Sql.WhereAll | helpers.ts:77 | A condition every row satisfies selects the whole table, in order |
| Sql.WhereUpdate | helpers.ts:83-88 | An UPDATE that does not affect a condition commutes with selecting by that condition |
| Sql.WhereDeleteCommute | helpers.ts:48 | Selecting by one condition and deleting by another commute |
| Sql.FirstMatchSurvivesDelete | helpers.ts:48 | A DELETE that spares the first match of a SELECT leaves it the first match |
| JsString.IsTrimmable | helpers.ts:32 | The code points `trim` removes are exactly ECMAScript's WhiteSpace (tab, VT, FF, space, NBSP, BOM, the Zs category) and LineTerminator (LF, CR, LS, PS) set; none of them is a hex digit |
| JsString.Trim | helpers.ts:32 | `roomId.trim()` has no whitespace at either end, and a string without edge whitespace is returned unchanged; TrimStartSpec, TrimEndSpec and TrimStripsEdges show it removes only edge whitespace |
| JsString.TrimStartSpec | helpers.ts:32 | The start-trimmed string is a suffix of the input, everything dropped is JavaScript whitespace, and it does not start with whitespace |
| JsString.TrimEndSpec | helpers.ts:32 | The end-trimmed string is a prefix of the input, everything dropped is JavaScript whitespace, and it does not end with whitespace |
| JsString.TrimStripsEdges | helpers.ts:32 | `trim` removes only whitespace, and only from the two ends: its result is a contiguous slice of the input |
| JsString.Destructured | helpers.ts:76 | Destructuring a string yields its code point at the position, or undefined past its end |
| Helpers.FetchRoom | helpers.ts:10-29 | Null iff no room has exactly this id; otherwise the first such room's id, createdAt and gameId |
| Helpers.FetchUserByToken | helpers.ts:130-150 | Null iff no user row holds the key; otherwise the first such row's room, socket, id and stored host flag |
| Helpers.FetchUserById | helpers.ts:152-173 | Null iff no user row has the id; otherwise the first such row's room, socket and stored host flag, with the given id |
| Helpers.FetchUserBySocketId | helpers.ts:175-196 | Null iff no row is bound to the socket; otherwise the first such row's room and id, and isHost is always false |
| Helpers.CreateRoom | helpers.ts:91-101 | Appends one waiting room with the given id, createdAt and gameId, leaves users unchanged, returns the id |
| Helpers.JoinRoom | helpers.ts:31-61 | Fails, changing nothing and returning three nulls, iff no room has the untrimmed id. Otherwise it deletes the socket's rows and appends a user under the trimmed id; the user is host iff the trimmed room had no rows before the delete; rooms are never changed |
| Helpers.LeaveRoom | helpers.ts:63-80 | Null with nothing changed iff no row has the socket. Otherwise it returns the first two code points of the first such row's userId and deletes exactly the rows whose userId equals the first code point; rooms are unchanged |
| Helpers.UpdatePing | helpers.ts:82-89 | Only lastPingAt changes, and only on rows bound to the socket; row count, order and rooms are unchanged |
| Session.Database.CreateRoom | helpers.ts:91-101 | The new tables and the returned id are those of Helpers.CreateRoom on the old tables |
| Session.Database.JoinRoom | helpers.ts:31-61 | Checking the room, counting members, deleting and inserting, in the source's order, yields Helpers.JoinRoom of the old tables |
| Session.Database.LeaveRoom | helpers.ts:63-80 | Selecting, destructuring the id and deleting yields Helpers.LeaveRoom of the old tables |
| Session.Database.UpdatePing | helpers.ts:82-89 | The UPDATE yields Helpers.UpdatePing of the old tables |
| Properties.JoinLeavesOneSocketRow | helpers.ts:48-58 | After a successful join, the socket owns exactly one row, the new one, and fetchUserBySocketId returns it without host status |
| Properties.RejoinAloneLosesHost | helpers.ts:40-58 | A socket that rejoins a room where it was the only member becomes the room's only member and is not host |
| Properties.FirstJoinerIsHost | helpers.ts:40-58 | Into a vacant room, a first join succeeds, deletes its socket's rows and appends a host row; a second join from another socket succeeds and appends a non-host row, and the first row survives it |
| Properties.JoinTokenRoundTrip | helpers.ts:51-60 | fetchUserByToken on the issued key returns the new user's trimmed room, socket, id and computed host flag, unless a surviving row already holds that key |
| Properties.PaddedCodeRefused | helpers.ts:32-38 | When every stored room code is hex, as the codes createRoom generates are, a code typed with edge whitespace is refused and nothing changes |
| Properties.TokenLookupSurvivesJoin | helpers.ts:48-58 | A join from another socket does not change any token lookup that succeeded before |
| Properties.TokenLookupSurvivesLeave | helpers.ts:75-77 | leaveRoom does not change a token lookup whose user id is longer than one code point |
| Properties.LeaveKeepsLongIds | helpers.ts:63-80 | With no one-code-point user ids, leaveRoom changes nothing, and a second call returns the same as the first |
| Properties.JoinThenLeave | helpers.ts:31-80 | After joining with an id of two or more code points, leaveRoom returns that id's first two code points and leaves the tables unchanged |
| Properties.PingKeepsTokenLookup | helpers.ts:82-89 | updatePing does not change any fetchUserByToken result |
| Properties.PingKeepsIdLookup | helpers.ts:82-89 | updatePing does not change any fetchUserById result |
| Properties.PingKeepsSocketLookup | helpers.ts:82-89 | updatePing does not change any fetchUserBySocketId result |
| Properties.CreateThenFetch | helpers.ts:91-101 | fetchRoom finds the new room under its id only if no earlier room had that id; lookups of every other id are unchanged |
| Sql.WhereKeepsNoPair | helpers.ts:48 | A SELECT or DELETE never creates a pair of related rows: if no two rows of a table are related, no two rows of the result are |
| Properties.JoinKeepsOneHost | helpers.ts:40-58 | If no room has two host rows before joinRoom, none has after it: the host flag is `userLength == 0`, and every row kept by the DELETE was counted |
| Properties.LeaveKeepsOneHost | helpers.ts:63-80 | leaveRoom keeps at most one host row per room |
| Properties.PingKeepsOneHost | helpers.ts:82-89 | updatePing keeps at most one host row per room, since it changes neither isHost nor roomId |
| Properties.CreateKeepsOneHost | helpers.ts:91-101 | createRoom keeps at most one host row per room |

## Left out

- Random ids and the clock are parameters. The model does not generate hex strings and does not assume the ids are unique: the lemmas that need uniqueness state it as a premise.
- The database is modelled as two sequences of rows scanned in insertion order. This is an assumption of the model: SQLite does not promise any order for a SELECT without ORDER BY. In practice, a full scan of a rowid table with no index returns rows in rowid order, which is insertion order here. If the order differed, `leaveRoom` and the lookups could pick a different first row. SQLite's storage, its type affinity (booleans stored as 0/1) and its errors are not part of this model.
- `isWaiting` is stored as `true` for the literal `1` that `createRoom` inserts.
- database.ts is not part of this model. Its file checks and CREATE TABLE statements are storage setup, and its schema lacks columns that helpers.ts uses. The tables follow helpers.ts's SQL.
- server.ts and server.js are not part of this model. They hold the Socket.IO and HTTP wiring, an older `joinRoom` with a broken turn-index computation, an empty token validator and a dice roll drawn from `Math.random`.
- The game engine and game-state writes are not in the modelled source. This covers turn order, starting a game, dice validation, rounds, locks, the per-game handler registry and the room/user data writes.
- The commented-out version of `fetchUserById` (helpers.ts:110-128) is dead code.
- Strings are assumed to be well-formed UTF-16, that is, sequences of Unicode code points. A JavaScript string can hold a lone surrogate. The SQLite driver encodes it as U+FFFD, so two different codes can compare equal in `WHERE roomId=?`. A Dafny string cannot hold a lone surrogate, so this model does not capture that case.
- Concurrency: every helper runs to completion synchronously against the database, so each method is one atomic step.
