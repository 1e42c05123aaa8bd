/**
 * Snap lifecycle: `open_snap` (mark opened, then delete now or arm a
 * one-shot deletion timer), the timer's deferred delete, and
 * `sent_multi_snap` (create a snap per receiver with a ten-second expiry,
 * announce it, and run the streak engine). The database is a map of
 * messages, every `emit` is an entry in an event log, and every
 * `setTimeout` is a pending timer.
 */
module Snaps {
  import opened Wrappers
  import Rooms
  import Presence
  import Streaks

  /** `10 * 1000`: how long after creation a multi-sent snap expires, in ms. */
  const SNAP_TTL_MS: int := 10 * 1000

  /** A row of the `messages` table. */
  datatype Message = Message(
    id: string,
    senderId: string,
    receiverId: string,
    roomId: string,
    mediaUrl: string,
    kind: string,
    isOpened: bool,
    expiresAt: Option<int>)

  /** What the server emits. */
  datatype Event =
    | RecSnap(room: string, msg: Message)          // "rec_snap" to a room
    | SnapDeleted(room: string, mid: string)       // "snap_deleted" to a room
    | FriendLastMsg(socket: string, msg: Message)  // "friend_lastmsg" to one socket

  /** A `setTimeout` callback that deletes message `mid` and announces it to `room`. */
  datatype Timer = Timer(mid: string, room: string, delay: int)

  /** The messages table, the events emitted so far, and the timers armed and not yet fired. */
  datatype Store = Store(messages: map<string, Message>, events: seq<Event>, timers: seq<Timer>)

  /** How an `open_snap` call ended. */
  datatype OpenOutcome =
    | MissingInput   // `!mid || !roomid`
    | UpdateFailed   // `messages.update` threw: no such message
    | NoExpiry       // `!resp.expiresAt`
    | DeletedNow     // `delay <= 0`
    | Scheduled      // `setTimeout(..., delay)`

  datatype Opened = Opened(store: Store, outcome: OpenOutcome)

  /** The number of "snap_deleted" announcements of message `mid` in `events`. */
  function Deletions(events: seq<Event>, mid: string): nat
  {
    if events == [] then 0
    else
      var last := events[|events| - 1];
      Deletions(events[..|events| - 1], mid) + (if last.SnapDeleted? && last.mid == mid then 1 else 0)
  }

  lemma DeletionsAppendOne(events: seq<Event>, e: Event, mid: string)
    ensures Deletions(events + [e], mid) == Deletions(events, mid) + if e.SnapDeleted? && e.mid == mid then 1 else 0
  {
    assert (events + [e])[..|events|] == events;
  }

  /** The `open_snap` handler, called with `mid` and `roomid` at time `now`. */
  function OpenSnapStep(s: Store, mid: Option<string>, roomid: Option<string>, now: int): Opened
  {
    if !Truthy(mid) || !Truthy(roomid) then Opened(s, MissingInput)
    else if mid.value !in s.messages then Opened(s, UpdateFailed)
    else
      var m, room := mid.value, roomid.value;
      var resp := s.messages[m].(isOpened := true);
      var events := s.events + [RecSnap(room, resp)];
      if resp.expiresAt.None? then
        Opened(Store(s.messages[m := resp], events, s.timers), NoExpiry)
      else
        var delay := resp.expiresAt.value - now;
        if delay <= 0 then
          Opened(Store(s.messages - {m}, events + [SnapDeleted(room, m)], s.timers), DeletedNow)
        else
          Opened(Store(s.messages[m := resp], events, s.timers + [Timer(m, room, delay)]), Scheduled)
  }

  /** What `open_snap` promises, for every input. */
  lemma OpenSnapContract(s: Store, mid: Option<string>, roomid: Option<string>, now: int, r: Opened)
    requires r == OpenSnapStep(s, mid, roomid, now)
    // missing `mid` or `roomid`, or no such message: nothing is updated or emitted
    ensures !Truthy(mid) || !Truthy(roomid) ==> r == Opened(s, MissingInput)
    ensures Truthy(mid) && Truthy(roomid) && mid.value !in s.messages ==> r == Opened(s, UpdateFailed)
    // a deletion or a timer happens exactly when the opened message has an expiry
    ensures r.outcome.DeletedNow? || r.outcome.Scheduled? <==>
      Truthy(mid) && Truthy(roomid) && mid.value in s.messages && s.messages[mid.value].expiresAt.Some?
    ensures r.outcome.DeletedNow? ==> s.messages[mid.value].expiresAt.value - now <= 0
    ensures r.outcome.Scheduled? ==>
      var delay := s.messages[mid.value].expiresAt.value - now;
      delay > 0 && r.store.timers == s.timers + [Timer(mid.value, roomid.value, delay)]
    ensures !r.outcome.Scheduled? ==> r.store.timers == s.timers
    // an opened message is announced to the room, then its deletion if it expired
    ensures |r.store.events| == |s.events| +
      (if r.outcome.DeletedNow? then 2 else if r.outcome.NoExpiry? || r.outcome.Scheduled? then 1 else 0)
    ensures r.store.events[..|s.events|] == s.events
    ensures Truthy(mid) && Truthy(roomid) && mid.value in s.messages ==>
      r.store.events[|s.events|] == RecSnap(roomid.value, s.messages[mid.value].(isOpened := true))
    ensures r.outcome.DeletedNow? ==> r.store.events[|s.events| + 1] == SnapDeleted(roomid.value, mid.value)
    // only the opened message changes: it is marked opened, or deleted when it expired
    ensures forall id :: id in r.store.messages <==>
      id in s.messages && !(r.outcome.DeletedNow? && id == mid.value)
    ensures forall id :: id in r.store.messages && id in s.messages ==>
      r.store.messages[id] ==
        if (r.outcome.NoExpiry? || r.outcome.Scheduled?) && id == mid.value
        then s.messages[id].(isOpened := true) else s.messages[id]
    // exactly one "snap_deleted" for the message when it is deleted now, none otherwise
    ensures forall id :: (Deletions(r.store.events, id) ==
      Deletions(s.events, id) + (if r.outcome.DeletedNow? && id == mid.value then 1 else 0))
  {
    if Truthy(mid) && Truthy(roomid) && mid.value in s.messages {
      var m, room := mid.value, roomid.value;
      var resp := s.messages[m].(isOpened := true);
      var events := s.events + [RecSnap(room, resp)];
      forall id
        ensures Deletions(events, id) == Deletions(s.events, id)
      {
        DeletionsAppendOne(s.events, RecSnap(room, resp), id);
      }
      if r.outcome.DeletedNow? {
        forall id
          ensures Deletions(events + [SnapDeleted(room, m)], id) == Deletions(events, id) + (if id == m then 1 else 0)
        {
          DeletionsAppendOne(events, SnapDeleted(room, m), id);
        }
      }
    }
  }

  /**
   * The callback of pending timer `i` fires: delete the message and
   * announce it; if the delete throws (the message is gone), the error
   * is caught and nothing is emitted.
   */
  function FireStep(s: Store, i: nat): Store
    requires i < |s.timers|
  {
    var t := s.timers[i];
    var rest := s.timers[..i] + s.timers[i + 1..];
    if t.mid in s.messages then
      Store(s.messages - {t.mid}, s.events + [SnapDeleted(t.room, t.mid)], rest)
    else
      Store(s.messages, s.events, rest)
  }

  /** A fired timer removes itself, deletes its message if it is still there, and announces only that. */
  lemma FireContract(s: Store, i: nat, r: Store)
    requires i < |s.timers| && r == FireStep(s, i)
    ensures r.timers == s.timers[..i] + s.timers[i + 1..]
    ensures forall id :: id in r.messages <==> id in s.messages && id != s.timers[i].mid
    ensures forall id :: id in r.messages ==> r.messages[id] == s.messages[id]
    ensures forall id :: (Deletions(r.events, id) ==
      Deletions(s.events, id) + (if id == s.timers[i].mid && id in s.messages then 1 else 0))
    ensures s.timers[i].mid !in s.messages ==> r.events == s.events
  {
    var t := s.timers[i];
    if t.mid in s.messages {
      forall id
        ensures Deletions(s.events + [SnapDeleted(t.room, t.mid)], id) == Deletions(s.events, id) + (if id == t.mid then 1 else 0)
      {
        DeletionsAppendOne(s.events, SnapDeleted(t.room, t.mid), id);
      }
    }
  }

  /** The record `sent_multi_snap` creates for one receiver. */
  function NewSnap(id: string, senderId: string, receiverId: string, mediaUrl: string, kind: string, now: int): Message
  {
    Message(id, senderId, receiverId, Rooms.RoomKey(senderId, receiverId), mediaUrl, kind, false, Some(now + SNAP_TTL_MS))
  }

  /**
   * The presence key `onlineusers[receiver?.clerkId]` reads: the
   * receiver's login id, or "undefined" when no user has that id.
   */
  function ReceiverKey(clerkIds: map<string, string>, receiverId: string): string
  {
    if receiverId in clerkIds then clerkIds[receiverId] else "undefined"
  }

  /**
   * What one new snap `m` emits: "rec_snap" to its room, then
   * "friend_lastmsg" to the receiver's socket when one is registered.
   */
  function Announce(reg: Presence.Registry, clerkIds: map<string, string>, m: Message): seq<Event>
  {
    var socket := Presence.Lookup(reg, ReceiverKey(clerkIds, m.receiverId));
    [RecSnap(m.roomId, m)] + if Truthy(socket) then [FriendLastMsg(socket.value, m)] else []
  }

  /**
   * One iteration of `sent_multi_snap`, without the streak update: create
   * the snap and announce it.
   */
  function SendSnapStep(s: Store, reg: Presence.Registry, clerkIds: map<string, string>, senderId: string,
                        receiverId: string, id: string, mediaUrl: string, kind: string, now: int): Store
  {
    var m := NewSnap(id, senderId, receiverId, mediaUrl, kind, now);
    Store(s.messages[id := m], s.events + Announce(reg, clerkIds, m), s.timers)
  }

  /**
   * One receiver's snap: a new unopened row in the sender and receiver's
   * room that expires ten seconds after `now`, no timer, no deletion,
   * and one or two announcements.
   */
  lemma SendSnapContract(s: Store, reg: Presence.Registry, clerkIds: map<string, string>, senderId: string,
                         receiverId: string, id: string, mediaUrl: string, kind: string, now: int, r: Store)
    requires r == SendSnapStep(s, reg, clerkIds, senderId, receiverId, id, mediaUrl, kind, now)
    ensures r.messages.Keys == s.messages.Keys + {id}
    ensures forall k :: k in s.messages && k != id ==> r.messages[k] == s.messages[k]
    ensures var m := r.messages[id];
      m.id == id && m.senderId == senderId && m.receiverId == receiverId && m.mediaUrl == mediaUrl && m.kind == kind &&
      m.roomId == Rooms.RoomKey(senderId, receiverId) && !m.isOpened && m.expiresAt == Some(now + SNAP_TTL_MS)
    ensures r.timers == s.timers
    ensures forall mid :: Deletions(r.events, mid) == Deletions(s.events, mid)
    // "rec_snap" to the room, then "friend_lastmsg" exactly when the receiver's key has a socket
    ensures var socket := Presence.Lookup(reg, ReceiverKey(clerkIds, receiverId));
      |r.events| == |s.events| + (if Truthy(socket) then 2 else 1) &&
      r.events[..|s.events|] == s.events &&
      r.events[|s.events|] == RecSnap(Rooms.RoomKey(senderId, receiverId), r.messages[id]) &&
      (Truthy(socket) ==> r.events[|s.events| + 1] == FriendLastMsg(socket.value, r.messages[id]))
  {
    var m := NewSnap(id, senderId, receiverId, mediaUrl, kind, now);
    var socket := Presence.Lookup(reg, ReceiverKey(clerkIds, receiverId));
    var announced := s.events + [RecSnap(m.roomId, m)];
    assert r.events == if Truthy(socket) then announced + [FriendLastMsg(socket.value, m)] else announced;
    forall mid
      ensures Deletions(r.events, mid) == Deletions(s.events, mid)
    {
      DeletionsAppendOne(s.events, RecSnap(m.roomId, m), mid);
      if Truthy(socket) {
        DeletionsAppendOne(announced, FriendLastMsg(socket.value, m), mid);
      }
    }
  }

  /** The ids in `xs`. */
  function Elems(xs: seq<string>): set<string>
  {
    set x | x in xs
  }

  lemma ElemsSnoc(xs: seq<string>, x: string)
    ensures Elems(xs + [x]) == Elems(xs) + {x}
  {
    assert forall y :: y in xs + [x] <==> y in xs || y == x;
  }

  /** The message part of `sent_multi_snap` over the receivers, with the database's new ids. */
  function SendSnaps(s: Store, reg: Presence.Registry, clerkIds: map<string, string>, senderId: string,
                     receiverIds: seq<string>, ids: seq<string>, mediaUrl: string, kind: string, now: int): Store
    requires |ids| == |receiverIds|
    decreases |ids|
  {
    if ids == [] then s
    else
      var n := |ids| - 1;
      SendSnapStep(SendSnaps(s, reg, clerkIds, senderId, receiverIds[..n], ids[..n], mediaUrl, kind, now),
                   reg, clerkIds, senderId, receiverIds[n], ids[n], mediaUrl, kind, now)
  }

  /** `sent_multi_snap` adds exactly one row per new id and keeps every other row. */
  lemma {:induction false} SendSnapsKeys(s: Store, reg: Presence.Registry, clerkIds: map<string, string>, senderId: string,
                                         receiverIds: seq<string>, ids: seq<string>, mediaUrl: string, kind: string, now: int)
    requires |ids| == |receiverIds|
    ensures SendSnaps(s, reg, clerkIds, senderId, receiverIds, ids, mediaUrl, kind, now).messages.Keys == s.messages.Keys + Elems(ids)
    decreases |ids|
  {
    if ids != [] {
      var n := |ids| - 1;
      var before := SendSnaps(s, reg, clerkIds, senderId, receiverIds[..n], ids[..n], mediaUrl, kind, now);
      SendSnapsKeys(s, reg, clerkIds, senderId, receiverIds[..n], ids[..n], mediaUrl, kind, now);
      assert ids == ids[..n] + [ids[n]];
      ElemsSnoc(ids[..n], ids[n]);
    }
  }

  /** The last receiver's row is written over the rows of the others. */
  lemma SendSnapsLastRow(s: Store, reg: Presence.Registry, clerkIds: map<string, string>, senderId: string,
                         receiverIds: seq<string>, ids: seq<string>, mediaUrl: string, kind: string, now: int)
    requires |ids| == |receiverIds| && ids != []
    ensures var n := |ids| - 1;
      SendSnaps(s, reg, clerkIds, senderId, receiverIds, ids, mediaUrl, kind, now).messages ==
      SendSnaps(s, reg, clerkIds, senderId, receiverIds[..n], ids[..n], mediaUrl, kind, now).messages
        [ids[n] := NewSnap(ids[n], senderId, receiverIds[n], mediaUrl, kind, now)]
  {
  }

  /** Each new id holds a fresh snap for its receiver, even when receivers repeat. */
  lemma {:induction false} SendSnapsRows(s: Store, reg: Presence.Registry, clerkIds: map<string, string>, senderId: string,
                                         receiverIds: seq<string>, ids: seq<string>, mediaUrl: string, kind: string, now: int)
    requires |ids| == |receiverIds|
    requires forall j, k :: 0 <= j < k < |ids| ==> ids[j] != ids[k]
    ensures var r := SendSnaps(s, reg, clerkIds, senderId, receiverIds, ids, mediaUrl, kind, now);
      forall k :: 0 <= k < |ids| ==> ids[k] in r.messages && r.messages[ids[k]] == NewSnap(ids[k], senderId, receiverIds[k], mediaUrl, kind, now)
    decreases |ids|
  {
    if ids != [] {
      var n := |ids| - 1;
      SendSnapsRows(s, reg, clerkIds, senderId, receiverIds[..n], ids[..n], mediaUrl, kind, now);
      SendSnapsLastRow(s, reg, clerkIds, senderId, receiverIds, ids, mediaUrl, kind, now);
      forall k | 0 <= k < n
        ensures ids[k] != ids[n] && ids[..n][k] == ids[k] && receiverIds[..n][k] == receiverIds[k]
      {
      }
    }
  }

  /** A row whose id is not among the new ids keeps its contents. */
  lemma {:induction false} SendSnapsKeepsRows(s: Store, reg: Presence.Registry, clerkIds: map<string, string>, senderId: string,
                                              receiverIds: seq<string>, ids: seq<string>, mediaUrl: string, kind: string, now: int)
    requires |ids| == |receiverIds|
    ensures var r := SendSnaps(s, reg, clerkIds, senderId, receiverIds, ids, mediaUrl, kind, now);
      forall m :: m in s.messages && m !in ids ==> m in r.messages && r.messages[m] == s.messages[m]
    decreases |ids|
  {
    if ids != [] {
      var n := |ids| - 1;
      SendSnapsKeepsRows(s, reg, clerkIds, senderId, receiverIds[..n], ids[..n], mediaUrl, kind, now);
      SendSnapsLastRow(s, reg, clerkIds, senderId, receiverIds, ids, mediaUrl, kind, now);
      assert ids == ids[..n] + [ids[n]];
    }
  }

  /**
   * The events of `sent_multi_snap`, receiver by receiver in order: each
   * new snap's "rec_snap", then its "friend_lastmsg" when there is one.
   */
  function AnnounceAll(reg: Presence.Registry, clerkIds: map<string, string>, senderId: string,
                       receiverIds: seq<string>, ids: seq<string>, mediaUrl: string, kind: string, now: int): seq<Event>
    requires |ids| == |receiverIds|
    decreases |ids|
  {
    if ids == [] then []
    else
      var n := |ids| - 1;
      AnnounceAll(reg, clerkIds, senderId, receiverIds[..n], ids[..n], mediaUrl, kind, now) +
      Announce(reg, clerkIds, NewSnap(ids[n], senderId, receiverIds[n], mediaUrl, kind, now))
  }

  /** `sent_multi_snap` appends the announcements in receiver order and arms no timer. */
  lemma {:induction false} SendSnapsEvents(s: Store, reg: Presence.Registry, clerkIds: map<string, string>, senderId: string,
                                           receiverIds: seq<string>, ids: seq<string>, mediaUrl: string, kind: string, now: int)
    requires |ids| == |receiverIds|
    ensures var r := SendSnaps(s, reg, clerkIds, senderId, receiverIds, ids, mediaUrl, kind, now);
      r.events == s.events + AnnounceAll(reg, clerkIds, senderId, receiverIds, ids, mediaUrl, kind, now) && r.timers == s.timers
    decreases |ids|
  {
    if ids != [] {
      var n := |ids| - 1;
      SendSnapsEvents(s, reg, clerkIds, senderId, receiverIds[..n], ids[..n], mediaUrl, kind, now);
      var a := AnnounceAll(reg, clerkIds, senderId, receiverIds[..n], ids[..n], mediaUrl, kind, now);
      var b := Announce(reg, clerkIds, NewSnap(ids[n], senderId, receiverIds[n], mediaUrl, kind, now));
      assert (s.events + a) + b == s.events + (a + b);
    }
  }

  /** The first `k + 1` receivers are the first `k`, then receiver `k`. */
  lemma SendEachPrefix(s: Store, reg: Presence.Registry, clerkIds: map<string, string>, senderId: string,
                       receiverIds: seq<string>, ids: seq<string>, mediaUrl: string, kind: string, now: int,
                       rows: seq<Streaks.Friendship>, tz: int, k: nat)
    requires |ids| == |receiverIds| && k < |ids|
    ensures SendSnaps(s, reg, clerkIds, senderId, receiverIds[..k + 1], ids[..k + 1], mediaUrl, kind, now) ==
      SendSnapStep(SendSnaps(s, reg, clerkIds, senderId, receiverIds[..k], ids[..k], mediaUrl, kind, now),
                   reg, clerkIds, senderId, receiverIds[k], ids[k], mediaUrl, kind, now)
    ensures ReconcileEach(rows, senderId, receiverIds[..k + 1], now, tz) ==
      Streaks.ReconcileAll(ReconcileEach(rows, senderId, receiverIds[..k], now, tz), senderId, receiverIds[k], now, tz)
    ensures UpdateLog(rows, senderId, receiverIds[..k + 1], now, tz) ==
      UpdateLog(rows, senderId, receiverIds[..k], now, tz) +
      Streaks.Ids(Streaks.FindMany(ReconcileEach(rows, senderId, receiverIds[..k], now, tz), senderId, receiverIds[k]))
  {
    assert receiverIds[..k + 1][..k] == receiverIds[..k] && ids[..k + 1][..k] == ids[..k];
  }

  /** The streak part of `sent_multi_snap`: `handlesnap` once per receiver, in order. */
  function ReconcileEach(rows: seq<Streaks.Friendship>, senderId: string, receiverIds: seq<string>, now: int, tz: int): seq<Streaks.Friendship>
    decreases |receiverIds|
  {
    if receiverIds == [] then rows
    else
      var n := |receiverIds| - 1;
      Streaks.ReconcileAll(ReconcileEach(rows, senderId, receiverIds[..n], now, tz), senderId, receiverIds[n], now, tz)
  }

  lemma AppendAssoc(a: seq<nat>, b: seq<nat>, c: seq<nat>)
    ensures a + b + c == a + (b + c)
  {
  }

  /** The ids `sent_multi_snap` passes to `friends.update`, receiver by receiver. */
  function UpdateLog(rows: seq<Streaks.Friendship>, senderId: string, receiverIds: seq<string>, now: int, tz: int): seq<nat>
    decreases |receiverIds|
  {
    if receiverIds == [] then []
    else
      var n := |receiverIds| - 1;
      UpdateLog(rows, senderId, receiverIds[..n], now, tz) +
      Streaks.Ids(Streaks.FindMany(ReconcileEach(rows, senderId, receiverIds[..n], now, tz), senderId, receiverIds[n]))
  }

  /** How many of `receiverIds` the friendship `f` links to `senderId`. */
  function MatchCount(f: Streaks.Friendship, senderId: string, receiverIds: seq<string>): nat
    decreases |receiverIds|
  {
    if receiverIds == [] then 0
    else
      var n := |receiverIds| - 1;
      MatchCount(f, senderId, receiverIds[..n]) + if Streaks.Matches(f, senderId, receiverIds[n]) then 1 else 0
  }

  /** Reconciling rows never changes a row's id or its two users. */
  lemma {:induction false} ReconcileEachKeepsKeys(rows: seq<Streaks.Friendship>, senderId: string, receiverIds: seq<string>, now: int, tz: int)
    ensures var r := ReconcileEach(rows, senderId, receiverIds, now, tz);
      |r| == |rows| &&
      forall i :: 0 <= i < |rows| ==> r[i].id == rows[i].id && r[i].userId == rows[i].userId && r[i].friendId == rows[i].friendId
    decreases |receiverIds|
  {
    if receiverIds != [] {
      var n := |receiverIds| - 1;
      ReconcileEachKeepsKeys(rows, senderId, receiverIds[..n], now, tz);
    }
  }

  /**
   * Over a whole `sent_multi_snap`, each friendship row is updated once
   * for every receiver it links to the sender, and never otherwise.
   */
  lemma {:induction false} UpdateLogCountsMatches(rows: seq<Streaks.Friendship>, senderId: string, receiverIds: seq<string>,
                                                  now: int, tz: int, i: nat)
    requires Streaks.UniqueIds(rows) && i < |rows|
    ensures multiset(UpdateLog(rows, senderId, receiverIds, now, tz))[rows[i].id] == MatchCount(rows[i], senderId, receiverIds)
    decreases |receiverIds|
  {
    if receiverIds != [] {
      var n := |receiverIds| - 1;
      UpdateLogCountsMatches(rows, senderId, receiverIds[..n], now, tz, i);
      var rows' := ReconcileEach(rows, senderId, receiverIds[..n], now, tz);
      ReconcileEachKeepsKeys(rows, senderId, receiverIds[..n], now, tz);
      assert Streaks.UniqueIds(rows');
      Streaks.UpdatesOncePerMatch(rows', senderId, receiverIds[n], i);
      assert Streaks.Matches(rows'[i], senderId, receiverIds[n]) == Streaks.Matches(rows[i], senderId, receiverIds[n]);
    }
  }

  /**
   * Each message is announced deleted at most once, and a message still
   * in the table has never been announced deleted.
   */
  ghost predicate AtMostOnce(s: Store)
  {
    forall mid :: Deletions(s.events, mid) <= 1 &&
      (Deletions(s.events, mid) == 1 ==> mid !in s.messages)
  }

  lemma OpenSnapKeepsAtMostOnce(s: Store, mid: Option<string>, roomid: Option<string>, now: int)
    requires AtMostOnce(s)
    ensures AtMostOnce(OpenSnapStep(s, mid, roomid, now).store)
  {
    var r := OpenSnapStep(s, mid, roomid, now);
    OpenSnapContract(s, mid, roomid, now, r);
    forall id
      ensures Deletions(r.store.events, id) <= 1 &&
        (Deletions(r.store.events, id) == 1 ==> id !in r.store.messages)
    {
      if r.outcome.DeletedNow? && id == mid.value {
        assert id in s.messages;
      }
    }
  }

  lemma FireKeepsAtMostOnce(s: Store, i: nat)
    requires AtMostOnce(s) && i < |s.timers|
    ensures AtMostOnce(FireStep(s, i))
  {
    var r := FireStep(s, i);
    FireContract(s, i, r);
    forall id
      ensures Deletions(r.events, id) <= 1 &&
        (Deletions(r.events, id) == 1 ==> id !in r.messages)
    {
      if id == s.timers[i].mid && id in s.messages {
        assert Deletions(s.events, id) == 0;
      }
    }
  }

  /** A new row keeps the property when its id was never announced deleted. */
  lemma SendSnapKeepsAtMostOnce(s: Store, reg: Presence.Registry, clerkIds: map<string, string>,
                                senderId: string, receiverId: string, id: string, mediaUrl: string, kind: string, now: int)
    requires AtMostOnce(s) && Deletions(s.events, id) == 0
    ensures AtMostOnce(SendSnapStep(s, reg, clerkIds, senderId, receiverId, id, mediaUrl, kind, now))
  {
    var r := SendSnapStep(s, reg, clerkIds, senderId, receiverId, id, mediaUrl, kind, now);
    SendSnapContract(s, reg, clerkIds, senderId, receiverId, id, mediaUrl, kind, now, r);
  }

  /**
   * A snap sent at `sent` and opened at `now` is deleted at once when its
   * ten seconds are over, and otherwise gets one timer for the time left.
   */
  lemma OpenSentSnap(s: Store, reg: Presence.Registry, clerkIds: map<string, string>, senderId: string,
                     receiverId: string, id: string, mediaUrl: string, kind: string, sent: int, now: int)
    requires id !in s.messages && id != ""
    ensures var s' := SendSnapStep(s, reg, clerkIds, senderId, receiverId, id, mediaUrl, kind, sent);
      var room := Rooms.RoomKey(senderId, receiverId);
      var r := OpenSnapStep(s', Some(id), Some(room), now);
      (now >= sent + SNAP_TTL_MS ==> r.outcome == DeletedNow && id !in r.store.messages) &&
      (now < sent + SNAP_TTL_MS ==>
        r.outcome == Scheduled && r.store.timers == s.timers + [Timer(id, room, sent + SNAP_TTL_MS - now)])
  {
    Rooms.RoomKeyShape(senderId, receiverId);
  }

  /**
   * Without its own timer a multi-sent snap is never deleted: until it is
   * opened there is no pending timer for it.
   */
  lemma SentSnapHasNoTimer(s: Store, reg: Presence.Registry, clerkIds: map<string, string>, senderId: string,
                           receiverId: string, id: string, mediaUrl: string, kind: string, now: int)
    requires id !in s.messages
    requires forall t :: t in s.timers ==> t.mid != id
    ensures forall t :: t in SendSnapStep(s, reg, clerkIds, senderId, receiverId, id, mediaUrl, kind, now).timers ==> t.mid != id
  {
  }

  /**
   * A receiver with no user record is looked up under the key
   * "undefined": whatever socket registered that key is told about the snap.
   */
  lemma MissingReceiverReachesUndefinedKey(s: Store, reg: Presence.Registry, clerkIds: map<string, string>, senderId: string,
                                           receiverId: string, id: string, mediaUrl: string, kind: string, now: int, socket: string)
    requires id !in s.messages && receiverId !in clerkIds
    requires Presence.Lookup(reg, "undefined") == Some(socket) && socket != ""
    ensures var r := SendSnapStep(s, reg, clerkIds, senderId, receiverId, id, mediaUrl, kind, now);
      r.events[|r.events| - 1] == FriendLastMsg(socket, NewSnap(id, senderId, receiverId, mediaUrl, kind, now))
  {
  }

  /** The server's message-side state and the objects it shares. */
  class Relay {
    var messages: map<string, Message>
    var events: seq<Event>
    var timers: seq<Timer>
    const presence: Presence.OnlineUsers
    const friends: Streaks.FriendsTable

    function State(): Store
      reads this
    {
      Store(messages, events, timers)
    }

    ghost predicate Valid()
      reads this, friends
    {
      friends.Valid() && AtMostOnce(State())
    }

    constructor (presence: Presence.OnlineUsers, friends: Streaks.FriendsTable)
      requires friends.Valid()
      ensures Valid() && State() == Store(map[], [], [])
      ensures this.presence == presence && this.friends == friends
    {
      this.presence := presence;
      this.friends := friends;
      messages, events, timers := map[], [], [];
    }

    /** The `open_snap` handler. */
    method OpenSnap(mid: Option<string>, roomid: Option<string>, now: int) returns (outcome: OpenOutcome)
      requires Valid()
      modifies this
      ensures Valid()
      ensures Opened(State(), outcome) == OpenSnapStep(old(State()), mid, roomid, now)
    {
      ghost var r := OpenSnapStep(State(), mid, roomid, now);
      OpenSnapKeepsAtMostOnce(State(), mid, roomid, now);
      outcome := MissingInput;
      if Truthy(mid) && Truthy(roomid) {
        var m, room := mid.value, roomid.value;
        if m !in messages {
          outcome := UpdateFailed;
        } else {
          var resp := messages[m].(isOpened := true);
          messages := messages[m := resp];
          events := events + [RecSnap(room, resp)];
          if resp.expiresAt.None? {
            outcome := NoExpiry;
          } else {
            var delay := resp.expiresAt.value - now;
            if delay <= 0 {
              messages := messages - {m};
              events := events + [SnapDeleted(room, m)];
              outcome := DeletedNow;
            } else {
              timers := timers + [Timer(m, room, delay)];
              outcome := Scheduled;
            }
          }
        }
      }
      assert Opened(State(), outcome) == r;
    }

    /** Pending timer `i` fires. */
    method FireTimer(i: nat)
      requires Valid() && i < |timers|
      modifies this
      ensures Valid()
      ensures State() == FireStep(old(State()), i)
    {
      FireKeepsAtMostOnce(State(), i);
      var t := timers[i];
      timers := timers[..i] + timers[i + 1..];
      if t.mid in messages {
        messages := messages - {t.mid};
        events := events + [SnapDeleted(t.room, t.mid)];
      }
    }

    /**
     * The message part of one iteration of `sent_multi_snap`: create the
     * row `id` for `receiverId` and announce it.
     */
    method CreateSnap(senderId: string, receiverId: string, mediaUrl: string, kind: string,
                      now: int, id: string, clerkIds: map<string, string>)
      requires Valid() && id !in messages && Deletions(events, id) == 0
      modifies this
      ensures Valid()
      ensures State() == SendSnapStep(old(State()), presence.State(), clerkIds, senderId, receiverId, id, mediaUrl, kind, now)
    {
      SendSnapKeepsAtMostOnce(State(), presence.State(), clerkIds, senderId, receiverId, id, mediaUrl, kind, now);
      var roomid := Rooms.RoomKey(senderId, receiverId);
      var resp := NewSnap(id, senderId, receiverId, mediaUrl, kind, now);
      messages := messages[id := resp];
      events := events + [RecSnap(roomid, resp)];
      var socketId := presence.SocketOf(ReceiverKey(clerkIds, receiverId));
      if Truthy(socketId) {
        events := events + [FriendLastMsg(socketId.value, resp)];
      }
      assert events == old(events) + Announce(presence.State(), clerkIds, resp);
    }

    /**
     * One iteration of `sent_multi_snap`: the new row `id` for `receiverId`,
     * its announcements, and `handlesnap` for the pair.
     */
    method SendOne(senderId: string, receiverId: string, mediaUrl: string, kind: string,
                   now: int, tz: int, id: string, clerkIds: map<string, string>)
      requires Valid() && id !in messages && Deletions(events, id) == 0
      modifies this, friends
      ensures Valid()
      ensures State() == SendSnapStep(old(State()), presence.State(), clerkIds, senderId, receiverId, id, mediaUrl, kind, now)
      ensures messages.Keys == old(messages).Keys + {id}
      ensures forall mid :: Deletions(events, mid) == Deletions(old(events), mid)
      ensures friends.rows == Streaks.ReconcileAll(old(friends.rows), senderId, receiverId, now, tz)
      ensures friends.updates == old(friends.updates) + Streaks.Ids(Streaks.FindMany(old(friends.rows), senderId, receiverId))
    {
      SendSnapContract(State(), presence.State(), clerkIds, senderId, receiverId, id, mediaUrl, kind, now,
                       SendSnapStep(State(), presence.State(), clerkIds, senderId, receiverId, id, mediaUrl, kind, now));
      CreateSnap(senderId, receiverId, mediaUrl, kind, now, id, clerkIds);
      friends.HandleSnap(senderId, receiverId, now, tz);
    }

    /**
     * The `sent_multi_snap` handler. `ids` are the ids the database gives
     * the new rows (never ids of rows announced deleted), `clerkIds` maps
     * user ids to login ids (`user.findUnique`).
     */
    method SendMultiSnap(senderId: string, receiverIds: seq<string>, mediaUrl: string, kind: string,
                         now: int, tz: int, ids: seq<string>, clerkIds: map<string, string>)
      requires Valid()
      requires |ids| == |receiverIds|
      requires forall j, k :: 0 <= j < k < |ids| ==> ids[j] != ids[k]
      requires forall k :: 0 <= k < |ids| ==> ids[k] !in messages && Deletions(events, ids[k]) == 0
      modifies this, friends
      ensures Valid()
      ensures State() == SendSnaps(old(State()), presence.State(), clerkIds, senderId, receiverIds, ids, mediaUrl, kind, now)
      ensures friends.rows == ReconcileEach(old(friends.rows), senderId, receiverIds, now, tz)
      ensures friends.updates == old(friends.updates) + UpdateLog(old(friends.rows), senderId, receiverIds, now, tz)
    {
      ghost var s0 := State();
      ghost var rows0, updates0 := friends.rows, friends.updates;
      for k := 0 to |receiverIds|
        invariant Valid()
        invariant forall j :: k <= j < |ids| ==> ids[j] !in messages && Deletions(events, ids[j]) == 0
        invariant State() == SendSnaps(s0, presence.State(), clerkIds, senderId, receiverIds[..k], ids[..k], mediaUrl, kind, now)
        invariant friends.rows == ReconcileEach(rows0, senderId, receiverIds[..k], now, tz)
        invariant friends.updates == updates0 + UpdateLog(rows0, senderId, receiverIds[..k], now, tz)
      {
        SendEachPrefix(s0, presence.State(), clerkIds, senderId, receiverIds, ids, mediaUrl, kind, now, rows0, tz, k);
        ghost var found := Streaks.Ids(Streaks.FindMany(friends.rows, senderId, receiverIds[k]));
        AppendAssoc(updates0, UpdateLog(rows0, senderId, receiverIds[..k], now, tz), found);
        SendOne(senderId, receiverIds[k], mediaUrl, kind, now, tz, ids[k], clerkIds);
      }
      assert receiverIds[..|receiverIds|] == receiverIds && ids[..|ids|] == ids;
    }
  }
}
