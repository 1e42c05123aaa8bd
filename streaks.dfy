/**
 * The streak engine (`isSameDay` and `handlesnap`). Instants are integer
 * milliseconds since the epoch; the server's local calendar is a fixed
 * offset `tz` (milliseconds) from UTC, so the local day of an instant is a
 * day number, and two instants fall on the same local year, month and
 * day-of-month exactly when their day numbers agree.
 */
module Streaks {
  import opened Wrappers

  const MS_PER_DAY: int := 86400000

  /** Local calendar day number of instant `t`. */
  function LocalDay(t: int, tz: int): int
  {
    (t + tz) / MS_PER_DAY
  }

  /** `isSameDay(d1, d2)`: the local year, month and day-of-month agree. */
  predicate IsSameDay(t1: int, t2: int, tz: int)
  {
    LocalDay(t1, tz) == LocalDay(t2, tz)
  }

  /** The `yesterday` of `handlesnap`: the same local time, one day before `now`. */
  function Yesterday(now: int): int
  {
    now - MS_PER_DAY
  }

  lemma YesterdayIsPreviousDay(now: int, tz: int)
    ensures LocalDay(Yesterday(now), tz) == LocalDay(now, tz) - 1
  {
    var x := now + tz;
    var q, r := x / MS_PER_DAY, x % MS_PER_DAY;
    assert x - MS_PER_DAY == (q - 1) * MS_PER_DAY + r;
  }

  lemma IsSameDayReflexive(t: int, tz: int)
    ensures IsSameDay(t, t, tz)
  {
  }

  lemma IsSameDaySymmetric(t1: int, t2: int, tz: int)
    ensures IsSameDay(t1, t2, tz) == IsSameDay(t2, t1, tz)
  {
  }

  /** Two instants on the same local day are less than a day apart. */
  lemma SameDayIsWithinADay(t1: int, t2: int, tz: int)
    requires IsSameDay(t1, t2, tz)
    ensures -MS_PER_DAY < t1 - t2 < MS_PER_DAY
  {
    var q := LocalDay(t1, tz);
    assert q * MS_PER_DAY <= t1 + tz < q * MS_PER_DAY + MS_PER_DAY;
    assert q * MS_PER_DAY <= t2 + tz < q * MS_PER_DAY + MS_PER_DAY;
  }

  type UserId = string

  /** A row of the `friends` table. */
  datatype Friendship = Friendship(
    id: nat,
    userId: UserId,
    friendId: UserId,
    streaks: nat,
    lastSnapAt: Option<int>)

  /** The `data` of one `friends.update` call in `handlesnap`. */
  datatype StreakUpdate =
    | Touch(at: int)       // { lastsnapat: now }
    | Increment(at: int)   // { streaks: { increment: 1 }, lastsnapat: now }
    | Restart(at: int)     // { streaks: 1, lastsnapat: now }

  /** The branch `handlesnap` takes for a row whose `lastsnapat` is `last`. */
  function Decide(last: Option<int>, now: int, tz: int): (u: StreakUpdate)
    ensures u.at == now
    ensures u.Touch? <==> last.Some? && LocalDay(last.value, tz) == LocalDay(now, tz)
  {
    if last.Some? && IsSameDay(last.value, now, tz) then Touch(now)
    else if last.Some? && IsSameDay(last.value, Yesterday(now), tz) then Increment(now)
    else Restart(now)
  }

  /** What the database does with one update of a row. */
  function Apply(f: Friendship, u: StreakUpdate): (g: Friendship)
    ensures g.id == f.id && g.userId == f.userId && g.friendId == f.friendId
    ensures g.lastSnapAt == Some(u.at)
  {
    match u
    case Touch(at) => f.(lastSnapAt := Some(at))
    case Increment(at) => f.(streaks := f.streaks + 1, lastSnapAt := Some(at))
    case Restart(at) => f.(streaks := 1, lastSnapAt := Some(at))
  }

  /** A row after `handlesnap` ran at `now`. */
  function Reconciled(f: Friendship, now: int, tz: int): Friendship
  {
    Apply(f, Decide(f.lastSnapAt, now, tz))
  }

  /** Same local day: the counter is kept, `lastsnapat` moves to `now`. */
  lemma SameDayKeepsStreak(f: Friendship, now: int, tz: int)
    requires f.lastSnapAt.Some? && LocalDay(f.lastSnapAt.value, tz) == LocalDay(now, tz)
    ensures Reconciled(f, now, tz) == f.(lastSnapAt := Some(now))
  {
  }

  /** Previous local day: the counter goes up by exactly one. */
  lemma NextDayIncrements(f: Friendship, now: int, tz: int)
    requires f.lastSnapAt.Some? && LocalDay(f.lastSnapAt.value, tz) == LocalDay(now, tz) - 1
    ensures Reconciled(f, now, tz) == f.(streaks := f.streaks + 1, lastSnapAt := Some(now))
  {
    YesterdayIsPreviousDay(now, tz);
  }

  /** No earlier snap, a gap of two days or more, or a later day: the counter restarts at one. */
  lemma OtherDayRestarts(f: Friendship, now: int, tz: int)
    requires f.lastSnapAt.Some? ==>
      var gap := LocalDay(now, tz) - LocalDay(f.lastSnapAt.value, tz);
      gap != 0 && gap != 1
    ensures Reconciled(f, now, tz) == f.(streaks := 1, lastSnapAt := Some(now))
  {
    YesterdayIsPreviousDay(now, tz);
  }

  /** Snaps at `nows`, in order, applied to one row. */
  function Replay(f: Friendship, nows: seq<int>, tz: int): Friendship
    decreases |nows|
  {
    if nows == [] then f
    else Reconciled(Replay(f, nows[..|nows| - 1], tz), nows[|nows| - 1], tz)
  }

  /**
   * A new friendship snapped on a run of days with no day missed (any
   * number of snaps per day) has a streak equal to the number of days in
   * the run.
   */
  lemma {:induction false} StreakCountsDaysOfRun(f: Friendship, nows: seq<int>, tz: int)
    requires f.lastSnapAt.None?
    requires |nows| > 0
    requires forall i :: 0 < i < |nows| ==>
      0 <= LocalDay(nows[i], tz) - LocalDay(nows[i - 1], tz) <= 1
    ensures Replay(f, nows, tz).lastSnapAt == Some(nows[|nows| - 1])
    ensures Replay(f, nows, tz).streaks == LocalDay(nows[|nows| - 1], tz) - LocalDay(nows[0], tz) + 1
  {
    var n := |nows|;
    if n == 1 {
      assert nows[..0] == [];
      OtherDayRestarts(f, nows[0], tz);
    } else {
      var prefix := nows[..n - 1];
      StreakCountsDaysOfRun(f, prefix, tz);
      var g := Replay(f, prefix, tz);
      assert g.lastSnapAt == Some(nows[n - 2]);
      if LocalDay(nows[n - 1], tz) == LocalDay(nows[n - 2], tz) {
        SameDayKeepsStreak(g, nows[n - 1], tz);
      } else {
        NextDayIncrements(g, nows[n - 1], tz);
      }
    }
  }

  /** The `findMany` filter: the row links the two users in either orientation. */
  predicate Matches(f: Friendship, senderId: UserId, receiverId: UserId)
  {
    (f.userId == senderId && f.friendId == receiverId) ||
    (f.userId == receiverId && f.friendId == senderId)
  }

  /** `friends.findMany` with the `OR` filter: the matching rows, in table order. */
  function FindMany(rows: seq<Friendship>, senderId: UserId, receiverId: UserId): (found: seq<Friendship>)
    ensures forall f :: f in found <==> f in rows && Matches(f, senderId, receiverId)
    ensures |found| <= |rows|
  {
    if rows == [] then []
    else
      (if Matches(rows[0], senderId, receiverId) then [rows[0]] else []) +
      FindMany(rows[1..], senderId, receiverId)
  }

  /** No two rows share an id (the table's primary key). */
  predicate UniqueIds(rows: seq<Friendship>)
  {
    forall i, j :: 0 <= i < j < |rows| ==> rows[i].id != rows[j].id
  }

  /** The primary keys of `rows`, in order. */
  function Ids(rows: seq<Friendship>): seq<nat>
  {
    seq(|rows|, i requires 0 <= i < |rows| => rows[i].id)
  }

  lemma {:induction false} FindManyUniqueIds(rows: seq<Friendship>, senderId: UserId, receiverId: UserId)
    requires UniqueIds(rows)
    ensures UniqueIds(FindMany(rows, senderId, receiverId))
  {
    if rows != [] {
      var rest := FindMany(rows[1..], senderId, receiverId);
      FindManyUniqueIds(rows[1..], senderId, receiverId);
      forall g | g in rest
        ensures g.id != rows[0].id
      {
        var j :| 0 <= j < |rows[1..]| && rows[1..][j] == g;
        assert rows[j + 1] == g;
      }
    }
  }

  /** With unique ids, the first row's id is not among the later matches. */
  lemma HeadIdNotFoundAgain(rows: seq<Friendship>, senderId: UserId, receiverId: UserId)
    requires UniqueIds(rows) && |rows| > 0
    ensures rows[0].id !in Ids(FindMany(rows[1..], senderId, receiverId))
  {
    var rest := FindMany(rows[1..], senderId, receiverId);
    forall k | 0 <= k < |rest|
      ensures Ids(rest)[k] != rows[0].id
    {
      assert rest[k] in rows[1..];
      var j :| 0 <= j < |rows[1..]| && rows[1..][j] == rest[k];
      assert rows[j + 1] == rest[k];
    }
  }

  /**
   * Every matching row's id is updated exactly once; no other row's id
   * is updated.
   */
  lemma {:induction false} UpdatesOncePerMatch(rows: seq<Friendship>, senderId: UserId, receiverId: UserId, i: nat)
    requires UniqueIds(rows) && i < |rows|
    ensures var ids := Ids(FindMany(rows, senderId, receiverId));
      multiset(ids)[rows[i].id] == if Matches(rows[i], senderId, receiverId) then 1 else 0
  {
    var head := if Matches(rows[0], senderId, receiverId) then [rows[0]] else [];
    var rest := FindMany(rows[1..], senderId, receiverId);
    assert FindMany(rows, senderId, receiverId) == head + rest;
    assert Ids(head + rest) == Ids(head) + Ids(rest);
    if i == 0 {
      HeadIdNotFoundAgain(rows, senderId, receiverId);
    } else {
      UpdatesOncePerMatch(rows[1..], senderId, receiverId, i - 1);
      assert rows[0].id != rows[i].id;
    }
  }

  /** The table after `handlesnap(senderId, receiverId)` ran at `now`. */
  function ReconcileAll(rows: seq<Friendship>, senderId: UserId, receiverId: UserId, now: int, tz: int): (rows': seq<Friendship>)
    ensures |rows'| == |rows|
    ensures forall i :: 0 <= i < |rows| ==>
      rows'[i] == if Matches(rows[i], senderId, receiverId) then Reconciled(rows[i], now, tz) else rows[i]
  {
    if rows == [] then []
    else
      [if Matches(rows[0], senderId, receiverId) then Reconciled(rows[0], now, tz) else rows[0]] +
      ReconcileAll(rows[1..], senderId, receiverId, now, tz)
  }

  /** Users that are not friends: no row changes. */
  lemma NotFriendsNoChange(rows: seq<Friendship>, senderId: UserId, receiverId: UserId, now: int, tz: int)
    requires FindMany(rows, senderId, receiverId) == []
    ensures ReconcileAll(rows, senderId, receiverId, now, tz) == rows
  {
    assert forall i :: 0 <= i < |rows| ==> rows[i] in rows;
  }

  /** `friends.update({ where: { id }, data })`, as a function of the table. */
  function UpdateWhere(rows: seq<Friendship>, id: nat, u: StreakUpdate): seq<Friendship>
  {
    seq(|rows|, i requires 0 <= i < |rows| => if rows[i].id == id then Apply(rows[i], u) else rows[i])
  }

  /**
   * An update by primary key keeps every row's id, and with unique ids it
   * changes at most one row.
   */
  lemma UpdateWhereChangesOneRow(rows: seq<Friendship>, id: nat, u: StreakUpdate)
    ensures Ids(UpdateWhere(rows, id, u)) == Ids(rows)
    ensures UniqueIds(rows) ==> UniqueIds(UpdateWhere(rows, id, u))
    ensures UniqueIds(rows) ==> forall i, j :: 0 <= i < j < |rows| ==>
      UpdateWhere(rows, id, u)[i] == rows[i] || UpdateWhere(rows, id, u)[j] == rows[j]
  {
    var r := UpdateWhere(rows, id, u);
    assert forall i :: 0 <= i < |rows| ==> Ids(r)[i] == Ids(rows)[i];
  }

  /**
   * `rows` is `rows0` with exactly the rows in `done` reconciled at `now`
   * (the loop invariant of `HandleSnap`).
   */
  ghost predicate ReconciledOnly(rows: seq<Friendship>, rows0: seq<Friendship>, done: seq<Friendship>, now: int, tz: int)
  {
    |rows| == |rows0| &&
    forall i :: 0 <= i < |rows| ==>
      rows[i] == if rows0[i] in done then Reconciled(rows0[i], now, tz) else rows0[i]
  }

  /** One more update, on a row not handled before, extends `done` by that row. */
  lemma ReconcileStep(rows: seq<Friendship>, rows0: seq<Friendship>, done: seq<Friendship>, f: Friendship, now: int, tz: int)
    requires UniqueIds(rows0) && f in rows0
    requires forall g :: g in done ==> g in rows0 && g.id != f.id
    requires ReconciledOnly(rows, rows0, done, now, tz)
    ensures ReconciledOnly(UpdateWhere(rows, f.id, Decide(f.lastSnapAt, now, tz)), rows0, done + [f], now, tz)
  {
    var rows' := UpdateWhere(rows, f.id, Decide(f.lastSnapAt, now, tz));
    forall i | 0 <= i < |rows'|
      ensures rows'[i] == if rows0[i] in done + [f] then Reconciled(rows0[i], now, tz) else rows0[i]
    {
      if rows0[i].id == f.id {
        var j :| 0 <= j < |rows0| && rows0[j] == f;
        assert j == i;
      } else {
        assert rows0[i] != f;
      }
    }
  }

  /** The `k`-th row returned by `findMany` is one not handled before. */
  lemma NextStep(rows: seq<Friendship>, rows0: seq<Friendship>, friendships: seq<Friendship>, k: nat, now: int, tz: int)
    requires UniqueIds(rows0) && UniqueIds(friendships) && k < |friendships|
    requires forall g :: g in friendships ==> g in rows0
    requires ReconciledOnly(rows, rows0, friendships[..k], now, tz)
    ensures var f := friendships[k];
      ReconciledOnly(UpdateWhere(rows, f.id, Decide(f.lastSnapAt, now, tz)), rows0, friendships[..k + 1], now, tz)
  {
    var f := friendships[k];
    assert friendships[..k + 1] == friendships[..k] + [f];
    forall g | g in friendships[..k]
      ensures g in rows0 && g.id != f.id
    {
      var j :| 0 <= j < k && friendships[j] == g;
    }
    ReconcileStep(rows, rows0, friendships[..k], f, now, tz);
  }

  /** Once every matching row is done, the table is `ReconcileAll` of the original. */
  lemma ReconciledAllMatches(rows: seq<Friendship>, rows0: seq<Friendship>, senderId: UserId, receiverId: UserId, now: int, tz: int)
    requires ReconciledOnly(rows, rows0, FindMany(rows0, senderId, receiverId), now, tz)
    ensures rows == ReconcileAll(rows0, senderId, receiverId, now, tz)
  {
  }

  /** The `friends` table, updated in place. */
  class FriendsTable {
    var rows: seq<Friendship>
    /** The ids passed to `friends.update`, in call order. */
    ghost var updates: seq<nat>

    ghost predicate Valid()
      reads this
    {
      UniqueIds(rows)
    }

    constructor (initial: seq<Friendship>)
      requires UniqueIds(initial)
      ensures Valid() && rows == initial && updates == []
    {
      rows := initial;
      updates := [];
    }

    /** One `friends.update` call. */
    method Update(id: nat, u: StreakUpdate)
      requires Valid()
      modifies this
      ensures Valid()
      ensures rows == UpdateWhere(old(rows), id, u)
      ensures updates == old(updates) + [id]
    {
      rows := UpdateWhere(rows, id, u);
      updates := updates + [id];
    }

    /** The `for (const f of friendships)` loop of `handlesnap`. */
    method UpdateEach(friendships: seq<Friendship>, now: int, tz: int)
      requires Valid() && UniqueIds(friendships)
      requires forall g :: g in friendships ==> g in rows
      modifies this
      ensures Valid()
      ensures ReconciledOnly(rows, old(rows), friendships, now, tz)
      ensures updates == old(updates) + Ids(friendships)
    {
      ghost var rows0 := rows;
      ghost var ids := Ids(friendships);
      for k := 0 to |friendships|
        invariant Valid()
        invariant ReconciledOnly(rows, rows0, friendships[..k], now, tz)
        invariant updates == old(updates) + ids[..k]
      {
        var f := friendships[k];
        NextStep(rows, rows0, friendships, k, now, tz);
        assert ids[..k + 1] == ids[..k] + [f.id];
        Update(f.id, Decide(f.lastSnapAt, now, tz));
      }
      assert friendships[..|friendships|] == friendships;
      assert ids[..|friendships|] == ids;
    }

    /**
     * `handlesnap(senderid, receiverid)`: one update per row linking the
     * two users, decided from that row's own `lastsnapat`.
     */
    method HandleSnap(senderId: UserId, receiverId: UserId, now: int, tz: int)
      requires Valid()
      modifies this
      ensures Valid()
      ensures rows == ReconcileAll(old(rows), senderId, receiverId, now, tz)
      ensures updates == old(updates) + Ids(FindMany(old(rows), senderId, receiverId))
    {
      var friendships := FindMany(rows, senderId, receiverId);
      if |friendships| == 0 {
        NotFriendsNoChange(rows, senderId, receiverId, now, tz);
        return;
      }
      FindManyUniqueIds(rows, senderId, receiverId);
      ghost var rows0 := rows;
      UpdateEach(friendships, now, tz);
      ReconciledAllMatches(rows, rows0, senderId, receiverId, now, tz);
    }
  }
}
