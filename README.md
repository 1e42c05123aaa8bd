# Snap relay server: a Dafny model

This project models the core of the Socket.IO snap server in `index.js`: the
room key two users share, the streak engine that runs after every snap, the
presence registry that maps a logged-in user to their socket, and the life of
a snap (created with a ten-second expiry, opened, deleted at once or after a
timer).

The model has five modules, one file each:

- `wrappers.dfy` (`Wrappers`): `Option`, plus JavaScript truthiness for an
  optional string (`undefined` and `""` are both falsy).
- `rooms.dfy` (`Rooms`): `[a, b].sort().join("_")` as `RoomKey`, over a
  recursive model of the default string order (`LexLe`) and of `join`.
- `streaks.dfy` (`Streaks`):
  - The clock: instants are integer milliseconds, and the server's local
    calendar is a fixed offset `tz` from UTC.
  - `isSameDay`, and the `yesterday` of `handlesnap`.
  - The per-row decision (`Decide`) and the database update (`Apply`).
  - `findMany` as `FindMany`.
  - The `friends` table as the class `FriendsTable`. It is updated in place
    by `HandleSnap`, whose loop is the method `UpdateEach`.
- `presence.dfy` (`Presence`):
  - `onlineusers` as a `Registry` value: the keys in enumeration order plus
    the map.
  - The live object as the class `OnlineUsers`. `user_connected` is
    `UserConnected`, and the `for...in` scan of `disconnect` is the loop in
    `Disconnect`.
- `snaps.dfy` (`Snaps`):
  - The `messages` table, the events the server emits, and the pending
    `setTimeout` callbacks, held as one `Store`.
  - Pure step functions for `open_snap`, a timer firing, and one iteration
    of `sent_multi_snap`.
  - The class `Relay`, whose methods change that state in place and are
    proved equal to the step functions.

Each class method's postcondition ties the new state to a pure function of
the old state. The lemmas then prove what the program promises about that
function:
- The room key is symmetric, and when no id contains the separator it
  determines the pair of users.
- A streak counts the days of an unbroken run.
- Every friendship row linking the two users is updated exactly once.
- A reconnect keeps a user online when the old socket goes away.
- Each snap is announced deleted at most once.
- A snap opened ten seconds or more after it was sent is deleted
  immediately; one opened sooner gets a timer for the rest of its ten
  seconds.

Two behaviours of the code are modelled as written:
- `sent_multi_snap` sets `expiresAt` on each new snap but arms no timer. A
  multi-sent snap is only ever deleted through `open_snap`
  (`Snaps.SentSnapHasNoTimer`, `Snaps.OpenSentSnap`).
- A receiver that has no user record is not skipped by `sent_multi_snap`.
  The code reads `onlineusers["undefined"]`
  (`Snaps.MissingReceiverReachesUndefinedKey`).

## Model

| member | source | states |
|---|---|---|
| Rooms.LexLe | index.js:113 | the default string order on ids, character by character with a prefix first; `LexLeTotal`, `LexLeAntisymmetric` and `LexLeTransitive` prove it a total order |
| Rooms.LexLeTotal | index.js:113 | the default string order compares any two ids one way or the other |
| Rooms.LexLeAntisymmetric | index.js:113 | two ids that each sort no later than the other are equal |
| Rooms.LexLeTransitive | index.js:113 | an id sorting no later than a second, which sorts no later than a third, sorts no later than the third |
| Rooms.SortPair | index.js:113 | `[a, b].sort()` on two ids; its contract is `SortPairSorts` |
| Rooms.SortPairSorts | index.js:113 | `[a, b].sort()` has exactly the two ids, as a multiset, in non-decreasing order |
| Rooms.Join | index.js:113 | `join` with a separator; its two-part case is `JoinPair` |
| Rooms.JoinPair | index.js:113 | `join` of two parts is the first part, the separator, then the second |
| Rooms.RoomKey | index.js:113 | the room key of two users; `RoomKeyShape`, `RoomKeySymmetric` and `RoomKeyDeterminesPair` state what it promises |
| Rooms.RoomKeyIsSortedJoin | index.js:113 | the room key is the smaller id, "_", then the larger id |
| Rooms.RoomKeyShape | index.js:304 | the key is `a_b` or `b_a` and is one character longer than the two ids together |
| Rooms.RoomKeySymmetric | index.js:191 | both users compute the same room key, whichever of them is the sender |
| Rooms.RoomKeyDeterminesPair | index.js:113 | if no id contains "_", equal room keys mean the same pair of users |
| Rooms.SeparatorInIdsCollides | index.js:113 | the pairs ("a_b", "c") and ("a", "b_c") share the room "a_b_c" |
| Streaks.LocalDay | index.js:27-35 | the server's local calendar day of an instant, as a day number |
| Streaks.IsSameDay | index.js:27-35 | `isSameDay`: same local year, month and date, i.e. the same day number; reflexive, symmetric and within 24 hours by the lemmas below |
| Streaks.Yesterday | index.js:49-51 | `yesterday`, 24 hours before `now`; `YesterdayIsPreviousDay` places it on the previous local day |
| Streaks.YesterdayIsPreviousDay | index.js:49-51 | `yesterday` falls on the local day before `now` |
| Streaks.IsSameDayReflexive | index.js:27-35 | every instant is on its own day |
| Streaks.IsSameDaySymmetric | index.js:27-35 | `isSameDay` does not depend on the order of its arguments |
| Streaks.SameDayIsWithinADay | index.js:27-35 | two instants on the same local day are less than 24 hours apart |
| Streaks.Decide | index.js:54-77 | the update always stamps `now`, and it is the update that does not touch the counter exactly when the last snap was on today's local date |
| Streaks.Apply | index.js:57-76 | an update keeps the row's id and users and sets `lastsnapat` to the update's time |
| Streaks.Reconciled | index.js:53-78 | one row after `handlesnap`'s update; its three cases are the three lemmas below |
| Streaks.SameDayKeepsStreak | index.js:56-60 | last snap on the same local day: only `lastsnapat` changes |
| Streaks.NextDayIncrements | index.js:61-68 | last snap on the previous local day: the counter goes up by one |
| Streaks.OtherDayRestarts | index.js:69-76 | no last snap, a gap of two days or more, or a later day: the counter restarts at 1 |
| Streaks.StreakCountsDaysOfRun | index.js:37-79 | for a new friendship snapped on consecutive days with none missed, the streak is the number of days in the run |
| Streaks.Matches | index.js:38-45 | the `OR` filter of `findMany`: the row links the sender to the receiver in either direction; `FindMany` states the rows it selects |
| Streaks.FindMany | index.js:38-45 | the result is exactly the rows linking the two users, in either direction |
| Streaks.FindManyUniqueIds | index.js:38-45 | the rows found have distinct ids when the table's ids are distinct |
| Streaks.UpdatesOncePerMatch | index.js:53-78 | each matching row's id is passed to `update` exactly once, and no other row's id is passed |
| Streaks.ReconcileAll | index.js:37-79 | the table keeps its length; each matching row is reconciled and every other row is unchanged |
| Streaks.NotFriendsNoChange | index.js:47 | when no row matches, the table is unchanged |
| Streaks.UpdateWhereChangesOneRow | index.js:57-60 | `update({ where: { id } })` keeps every row's id, keeps ids unique, and with unique ids changes at most one row |
| Streaks.FriendsTable.Update | index.js:57-60 | one update call changes only the row with that id and records the id |
| Streaks.FriendsTable.UpdateEach | index.js:53-78 | after the loop, exactly the found rows are reconciled, and their ids are the update calls made, in order |
| Streaks.FriendsTable.HandleSnap | index.js:37-79 | the table becomes `ReconcileAll` of the old table, and the ids of the matching rows are updated in table order |
| Presence.Register | index.js:92 | assigning a key keeps the registry well formed (each key listed once, the same keys as the map) |
| Presence.RegisterContract | index.js:92 | after `user_connected` the user maps to the new socket, other users are unchanged, and only a new key is appended to the order |
| Presence.Lookup | index.js:325 | `onlineusers[key]`: the socket registered under the key, or none; `RegisterContract` and `UnregisterContract` state how it changes |
| Presence.FirstHolder | index.js:100-101 | the result is the first key in enumeration order whose socket matches, or none when no key holds the socket |
| Presence.RemoveAtWellFormed | index.js:102 | deleting a key keeps the registry well formed |
| Presence.Unregister | index.js:99-107 | the `disconnect` scan as a function of the registry; its contract is `UnregisterContract` |
| Presence.UnregisterContract | index.js:99-107 | `disconnect` removes at most one key, which holds that socket and is the first such key in order; it removes one whenever some key holds the socket; all other entries are unchanged |
| Presence.SoleHolderGoesOffline | index.js:99-107 | a user whose socket no other key holds is offline afterwards, and nobody else changes |
| Presence.DisplacedSocketLeavesUserOnline | index.js:91-107 | a user who reconnected on a second socket stays online when the first socket disconnects |
| Presence.ConnectThenDisconnect | index.js:91-107 | a new user connecting on an unused socket, then that socket disconnecting, restores the registry, order included |
| Presence.OnlineUsers.SocketOf | index.js:325 | `onlineusers[key]` reads the registry's entry for that key |
| Presence.OnlineUsers.constructor | index.js:21 | the registry starts empty |
| Presence.OnlineUsers.UserConnected | index.js:91-94 | the object's new state is `Register` of the old one |
| Presence.OnlineUsers.Disconnect | index.js:99-107 | the scan with `break` leaves the object in the state `Unregister` of the old one |
| Snaps.OpenSnapStep | index.js:152-183 | `open_snap` as a function of the state; its contract is `OpenSnapContract` |
| Snaps.OpenSnapContract | index.js:152-183 | missing `mid`/`roomid` or a missing message changes and emits nothing; otherwise the opened message is announced. It is deleted and its deletion announced exactly when its expiry has passed, or one timer is armed for the remaining delay; a message without expiry gets neither. Nothing else changes |
| Snaps.FireStep | index.js:175-182 | a `setTimeout` callback as a function of the state; its contract is `FireContract` |
| Snaps.FireContract | index.js:175-182 | a firing timer is removed; if its message still exists it is deleted and announced once, otherwise the error is swallowed and nothing is emitted |
| Snaps.NewSnap | index.js:306-316 | the row `create` writes: sender, receiver, room key, media, kind, unopened, expiring ten seconds after `now` |
| Snaps.ReceiverKey | index.js:320-325 | the key `onlineusers[receiver?.clerkId]` reads: the login id, or "undefined" without a user record (`MissingReceiverReachesUndefinedKey`) |
| Snaps.Announce | index.js:318-328 | the events one new snap causes: "rec_snap" to its room, then "friend_lastmsg" when the receiver's key has a socket |
| Snaps.SendSnapStep | index.js:303-328 | one receiver's snap as a function of the state; its contract is `SendSnapContract` |
| Snaps.SendSnapContract | index.js:303-328 | one new unopened row with the sender's and receiver's room key and an expiry ten seconds after creation; no timer and no deletion; "rec_snap" to the room, then "friend_lastmsg" exactly when the receiver's key has a socket |
| Snaps.SendSnaps | index.js:302-332 | the message part of `sent_multi_snap`, one `SendSnapStep` per receiver in order; stated by the four lemmas below |
| Snaps.SendSnapsKeys | index.js:302-332 | `sent_multi_snap` adds exactly the new ids to the table's keys |
| Snaps.SendSnapsRows | index.js:306-316 | with distinct new ids, the row of receiver k's id is the new snap for receiver k, with the pair's room key and an expiry ten seconds after `now` |
| Snaps.SendSnapsKeepsRows | index.js:302-332 | every row whose id is not a new id keeps its contents |
| Snaps.AnnounceAll | index.js:318-328 | the events of `sent_multi_snap`: for each receiver in order, its "rec_snap" then its "friend_lastmsg" when there is one |
| Snaps.SendSnapsEvents | index.js:302-332 | `sent_multi_snap` appends exactly `AnnounceAll` to the events and arms no timer |
| Snaps.ReconcileEach | index.js:330 | the friends table after `handlesnap` ran once per receiver, in order |
| Snaps.ReconcileEachKeepsKeys | index.js:330 | those updates never change a row's id or its two users |
| Snaps.UpdateLog | index.js:330 | the ids passed to `friends.update`, receiver by receiver |
| Snaps.UpdateLogCountsMatches | index.js:302-332 | each friendship row is updated once for every receiver it links to the sender, and never otherwise |
| Snaps.OpenSnapKeepsAtMostOnce | index.js:165-173 | `open_snap` keeps "each message is announced deleted at most once, and only after it left the table" |
| Snaps.FireKeepsAtMostOnce | index.js:175-182 | a firing timer keeps the same property, so a second timer for the same message never announces twice |
| Snaps.SendSnapKeepsAtMostOnce | index.js:306-318 | creating a snap with a fresh id keeps the same property |
| Snaps.OpenSentSnap | index.js:314 | a snap sent at time t and opened at `now` is deleted at once if `now >= t + 10000`, and otherwise gets a timer of `t + 10000 - now` ms |
| Snaps.SentSnapHasNoTimer | index.js:302-332 | sending a snap arms no timer for it |
| Snaps.MissingReceiverReachesUndefinedKey | index.js:320-328 | for a receiver with no user record, the socket registered under "undefined", if any, is sent "friend_lastmsg" |
| Snaps.Relay.OpenSnap | index.js:152-183 | the handler's outcome and new state are `OpenSnapStep` of the old state, and the at-most-once invariant is kept |
| Snaps.Relay.FireTimer | index.js:175-182 | the callback's new state is `FireStep` of the old state, and the invariant is kept |
| Snaps.Relay.CreateSnap | index.js:306-328 | for a fresh id, the new state is `SendSnapStep` of the old, and the invariant is kept |
| Snaps.Relay.SendOne | index.js:303-330 | one loop iteration with a fresh id: the new state is `SendSnapStep` of the old, exactly that id is added, no deletion count changes, the friends table is reconciled for the pair, the matching rows' ids are the update calls made, and the invariant is kept |
| Snaps.Relay.SendMultiSnap | index.js:302-332 | with fresh, distinct ids, the messages, events and timers become `SendSnaps` of the old state, the friends table goes through `handlesnap` once per receiver in order, and the update calls made are `UpdateLog` |

## Left out

- Date and time:
  - Real time zones and daylight-saving changes are not modelled. The local
    calendar is a fixed offset from UTC, so `isSameDay` compares day
    numbers, and `yesterday` (`setDate(getDate() - 1)`) is exactly 24 hours
    earlier.
  - The model gives each handler call a single instant `now`. The code
    reads the clock again for every receiver of `sent_multi_snap`
    (`Date.now()` for `expiresAt`, and `new Date()` in each `handlesnap`).
    The model therefore does not capture that snaps of one multi-send can
    get different `expiresAt` values, or that a send running across
    midnight can decide later receivers' streaks against the next day.
- String order and object keys:
  - JavaScript compares strings by UTF-16 code unit. `LexLe` compares Dafny
    characters (code points), and the two orders differ only for
    characters outside the Basic Multilingual Plane.
  - `for...in` visits integer-like keys first, in numeric order. The model
    uses plain insertion order.
  - Keys inherited from `Object.prototype` (such as `constructor`) are not
    modelled.
- Streaks.Friendship: `streaks` is an unbounded `nat`. The database's
  32-bit integer column and its overflow are not modelled.
- Prisma:
  - `friends.findMany` has no `orderBy`, so the database promises no order
    for the rows. `FindMany` and `HandleSnap` take them, and update them, in
    table order. With unique ids each row's update depends only on that
    row, so the final table does not depend on the order; the order of the
    update calls does.
  - The only failure modelled is the one the handlers depend on: updating
    or deleting a missing message throws. `open_snap` then stops
    (`UpdateFailed`), and the timer's `catch` swallows the error. That
    describes the handler only. In the server, the `update` or `delete` in
    `open_snap` rejects the async listener's promise, Socket.IO does not
    catch it, and on Node 15 and later an unhandled rejection ends the
    process. The model keeps the server running.
  - Other database errors are not modelled: a failed `create`, a failed
    `findUnique`, or a lost connection.
  - New message ids come from the database. `SendMultiSnap` takes them as a
    parameter and requires that they are distinct, not in the table, and
    never announced deleted.
- Timers and concurrency:
  - How long a `setTimeout` delay lasts is not modelled. Pending callbacks
    are a list, and any of them may fire next (`FireTimer`).
  - Node treats a `setTimeout` delay above 2147483647 ms as 1 ms. A message
    whose `expiresAt` is more than about 24.8 days away is therefore
    deleted about 1 ms after it is opened, while `Timer.delay` records the
    full delay.
  - Interleaving of handlers at `await` points is not modelled. Each
    handler runs to completion as one step.
- The room-joining part of `join_room` (`socket.join`) and all Socket.IO
  transport are not modelled. The event log records who each event is
  sent to.
- The other handlers are not part of this model: `send_msg`, and the
  notification handlers `sent_multi_notification` and `sent_notification`.
  They use the same room key and presence lookup that are modelled here.
- Logging, environment loading, the server's `listen`, and the SIGTERM
  shutdown are not modelled.
