/**
 * The presence registry: the `onlineusers` object, mapping a user's login
 * id to the id of the socket that last announced it. Its keys are kept in
 * the order `for...in` visits them (insertion order).
 */
module Presence {
  import opened Wrappers

  /** The keys of `onlineusers` in enumeration order, and the socket id under each. */
  datatype Registry = Registry(order: seq<string>, sockets: map<string, string>)

  /** Every key is listed once, and the listed keys are exactly the map's keys. */
  predicate WellFormed(reg: Registry)
  {
    (forall i, j :: 0 <= i < j < |reg.order| ==> reg.order[i] != reg.order[j]) &&
    (forall k :: k in reg.order ==> k in reg.sockets) &&
    (forall k :: k in reg.sockets ==> k in reg.order)
  }

  const EMPTY: Registry := Registry([], map[])

  /** `onlineusers[userId]`: the socket id, or `undefined`. */
  function Lookup(reg: Registry, userId: string): Option<string>
  {
    if userId in reg.sockets then Some(reg.sockets[userId]) else None
  }

  /** `onlineusers[userId] = socketId`: last writer wins; a new key goes last. */
  function Register(reg: Registry, userId: string, socketId: string): (r: Registry)
    requires WellFormed(reg)
    ensures WellFormed(r)
  {
    Registry(
      if userId in reg.sockets then reg.order else reg.order + [userId],
      reg.sockets[userId := socketId])
  }

  /** `user_connected` sets the user's socket, leaves every other user's, and appends only a new key. */
  lemma RegisterContract(reg: Registry, userId: string, socketId: string)
    requires WellFormed(reg)
    ensures var r := Register(reg, userId, socketId);
      Lookup(r, userId) == Some(socketId) &&
      (forall u :: u != userId ==> Lookup(r, u) == Lookup(reg, u)) &&
      (userId in reg.sockets ==> r.order == reg.order) &&
      (userId !in reg.sockets ==> r.order == reg.order + [userId])
  {
  }

  /** The position, in enumeration order, of the first key holding `socketId`. */
  function FirstHolder(order: seq<string>, sockets: map<string, string>, socketId: string): (r: Option<nat>)
    requires forall k :: k in order ==> k in sockets
    ensures r.Some? ==> r.value < |order| && sockets[order[r.value]] == socketId
    ensures r.Some? ==> forall j :: 0 <= j < r.value ==> sockets[order[j]] != socketId
    ensures r.None? ==> forall j :: 0 <= j < |order| ==> sockets[order[j]] != socketId
  {
    if order == [] then None
    else if sockets[order[0]] == socketId then Some(0)
    else match FirstHolder(order[1..], sockets, socketId)
      case None => None
      case Some(i) => Some(i + 1)
  }

  /** Removing the key at position `i` keeps the registry well formed. */
  lemma RemoveAtWellFormed(reg: Registry, i: nat)
    requires WellFormed(reg) && i < |reg.order|
    ensures WellFormed(Registry(reg.order[..i] + reg.order[i + 1..], reg.sockets - {reg.order[i]}))
  {
    var order' := reg.order[..i] + reg.order[i + 1..];
    forall a, b | 0 <= a < b < |order'|
      ensures order'[a] != order'[b]
    {
      var a0 := if a < i then a else a + 1;
      var b0 := if b < i then b else b + 1;
      assert order'[a] == reg.order[a0] && order'[b] == reg.order[b0];
    }
    forall k
      ensures k in order' <==> k in reg.sockets - {reg.order[i]}
    {
      if k in order' {
        var a :| 0 <= a < |order'| && order'[a] == k;
        var a0 := if a < i then a else a + 1;
        assert reg.order[a0] == k;
      }
      if k in reg.sockets && k != reg.order[i] {
        var a0 :| 0 <= a0 < |reg.order| && reg.order[a0] == k;
        assert order'[if a0 < i then a0 else a0 - 1] == k;
      }
    }
  }

  /**
   * The `disconnect` handler: the first key, in enumeration order, whose
   * socket id is `socketId` is deleted; then the scan stops.
   */
  function Unregister(reg: Registry, socketId: string): Registry
    requires WellFormed(reg)
  {
    match FirstHolder(reg.order, reg.sockets, socketId)
    case None => reg
    case Some(i) => Registry(reg.order[..i] + reg.order[i + 1..], reg.sockets - {reg.order[i]})
  }

  /** What `disconnect` does to the registry, for every socket id. */
  lemma UnregisterContract(reg: Registry, socketId: string, r: Registry)
    requires WellFormed(reg) && r == Unregister(reg, socketId)
    ensures WellFormed(r)
    // the surviving entries are unchanged
    ensures forall u :: u in r.sockets ==> u in reg.sockets && r.sockets[u] == reg.sockets[u]
    // at most one entry is removed, and only one holding `socketId`
    ensures forall u, v :: u in reg.sockets && u !in r.sockets && v in reg.sockets && v !in r.sockets ==> u == v
    ensures forall u :: u in reg.sockets && u !in r.sockets ==> reg.sockets[u] == socketId
    // it is the first such entry in enumeration order
    ensures forall i, j :: 0 <= i < j < |reg.order| && reg.order[j] !in r.sockets ==>
      reg.sockets[reg.order[i]] != socketId
    // if some entry holds `socketId`, one is removed
    ensures (exists u :: u in reg.sockets && reg.sockets[u] == socketId) ==>
      exists u :: u in reg.sockets && u !in r.sockets
  {
    match FirstHolder(reg.order, reg.sockets, socketId)
    case None =>
      forall u | u in reg.sockets
        ensures reg.sockets[u] != socketId
      {
        var j :| 0 <= j < |reg.order| && reg.order[j] == u;
      }
    case Some(i) =>
      RemoveAtWellFormed(reg, i);
  }

  /** A user whose socket was the only one with that id is offline after the disconnect. */
  lemma SoleHolderGoesOffline(reg: Registry, userId: string, socketId: string)
    requires WellFormed(reg) && Lookup(reg, userId) == Some(socketId)
    requires forall u :: u in reg.sockets && reg.sockets[u] == socketId ==> u == userId
    ensures Lookup(Unregister(reg, socketId), userId) == None
    ensures forall u :: u != userId ==> Lookup(Unregister(reg, socketId), u) == Lookup(reg, u)
  {
    UnregisterContract(reg, socketId, Unregister(reg, socketId));
  }

  /**
   * A user that connected again from a second socket stays online when
   * the first socket disconnects.
   */
  lemma DisplacedSocketLeavesUserOnline(reg: Registry, userId: string, first: string, second: string)
    requires WellFormed(reg) && first != second
    ensures Lookup(Unregister(Register(reg, userId, second), first), userId) == Some(second)
  {
    var r := Register(reg, userId, second);
    UnregisterContract(r, first, Unregister(r, first));
  }

  /**
   * Connecting a new user on an unused socket and disconnecting that
   * socket restores the registry exactly, enumeration order included.
   */
  lemma {:induction false} ConnectThenDisconnect(reg: Registry, userId: string, socketId: string)
    requires WellFormed(reg) && userId !in reg.sockets
    requires forall u :: u in reg.sockets ==> reg.sockets[u] != socketId
    ensures Unregister(Register(reg, userId, socketId), socketId) == reg
  {
    NewUserHoldsSocketFirst(reg, userId, socketId);
    RemoveLast(reg.order, userId);
    RemoveNewKey(reg.sockets, userId, socketId);
  }

  lemma RemoveLast(order: seq<string>, k: string)
    ensures (order + [k])[..|order|] + (order + [k])[|order| + 1..] == order
  {
    assert (order + [k])[..|order|] == order;
  }

  lemma RemoveNewKey(sockets: map<string, string>, k: string, v: string)
    requires k !in sockets
    ensures sockets[k := v] - {k} == sockets
  {
  }

  /** A user registered on an unused socket is the first (and only) holder of it. */
  lemma NewUserHoldsSocketFirst(reg: Registry, userId: string, socketId: string)
    requires WellFormed(reg) && userId !in reg.sockets
    requires forall u :: u in reg.sockets ==> reg.sockets[u] != socketId
    ensures var r := Register(reg, userId, socketId);
      FirstHolder(r.order, r.sockets, socketId) == Some(|reg.order|)
  {
    var r := Register(reg, userId, socketId);
    var n := |reg.order|;
    forall j | 0 <= j < n
      ensures r.sockets[r.order[j]] != socketId
    {
      assert r.order[j] == reg.order[j] && reg.order[j] in reg.sockets;
    }
    FirstHolderIs(r.order, r.sockets, socketId, n);
  }

  /** A holder with no holder before it is the first holder. */
  lemma FirstHolderIs(order: seq<string>, sockets: map<string, string>, socketId: string, i: nat)
    requires forall k :: k in order ==> k in sockets
    requires i < |order| && sockets[order[i]] == socketId
    requires forall j :: 0 <= j < i ==> sockets[order[j]] != socketId
    ensures FirstHolder(order, sockets, socketId) == Some(i)
  {
  }

  /** The live `onlineusers` object of the server. */
  class OnlineUsers {
    var order: seq<string>
    var sockets: map<string, string>

    ghost predicate Valid()
      reads this
    {
      WellFormed(State())
    }

    function State(): Registry
      reads this
    {
      Registry(order, sockets)
    }

    /** `onlineusers[userId]`. */
    function SocketOf(userId: string): (s: Option<string>)
      reads this
      ensures s == Lookup(State(), userId)
    {
      if userId in sockets then Some(sockets[userId]) else None
    }

    /** `const onlineusers = {}`. */
    constructor ()
      ensures Valid() && State() == EMPTY
    {
      order := [];
      sockets := map[];
    }

    /** The `user_connected` handler. */
    method UserConnected(userId: string, socketId: string)
      requires Valid()
      modifies this
      ensures Valid()
      ensures State() == Register(old(State()), userId, socketId)
    {
      if userId !in sockets {
        order := order + [userId];
      }
      sockets := sockets[userId := socketId];
    }

    /** The `disconnect` handler: scan the keys, delete the first holding `socketId`, stop. */
    method Disconnect(socketId: string)
      requires Valid()
      modifies this
      ensures Valid()
      ensures State() == Unregister(old(State()), socketId)
    {
      var i := 0;
      while i < |order|
        invariant 0 <= i <= |order|
        invariant State() == old(State())
        invariant forall j :: 0 <= j < i ==> sockets[order[j]] != socketId
      {
        var uid := order[i];
        if sockets[uid] == socketId {
          FirstHolderIs(order, sockets, socketId, i);
          RemoveAtWellFormed(State(), i);
          sockets := sockets - {uid};
          order := order[..i] + order[i + 1..];
          break;
        }
        i := i + 1;
      }
    }
  }
}
