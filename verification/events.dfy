/** The per-connection event handlers: joining a room's channel group, relaying signalling and
    chat to the other members of a room, leaving a room, and the cleanup on disconnect. */
module Events {
  import opened Wrappers
  import opened Store
  import opened Rooms
  import opened Sockets
  import opened Matchmaking

  // ----- join_room and the relayed events -----

  /** join_room: the socket joins the group of the room id it names. */
  method OnJoinRoom(hub: Hub, s: SocketId, roomId: RoomId)
    modifies hub
    ensures hub.groups == Joined(old(hub.groups), roomId, s)
    ensures hub.live == old(hub.live) && hub.outbox == old(hub.outbox)
  {
    hub.Join(s, roomId);
  }

  /** webrtc_offer: `{roomId, offer}` to every other member of the room's group. */
  method OnWebrtcOffer(hub: Hub, s: SocketId, roomId: RoomId, offer: Blob) returns (sent: seq<Emission>)
    modifies hub
    ensures FanOut(sent, Members(old(hub.groups), roomId) - {s}, WebrtcOffer(roomId, offer))
    ensures hub.outbox == old(hub.outbox) + sent
    ensures hub.live == old(hub.live) && hub.groups == old(hub.groups)
  {
    sent := hub.Broadcast(roomId, s, WebrtcOffer(roomId, offer));
  }

  /** webrtc_answer: `{roomId, answer}` to every other member of the room's group. */
  method OnWebrtcAnswer(hub: Hub, s: SocketId, roomId: RoomId, answer: Blob) returns (sent: seq<Emission>)
    modifies hub
    ensures FanOut(sent, Members(old(hub.groups), roomId) - {s}, WebrtcAnswer(roomId, answer))
    ensures hub.outbox == old(hub.outbox) + sent
    ensures hub.live == old(hub.live) && hub.groups == old(hub.groups)
  {
    sent := hub.Broadcast(roomId, s, WebrtcAnswer(roomId, answer));
  }

  /** webrtc_ice: `{roomId, candidate}` to every other member of the room's group. */
  method OnWebrtcIce(hub: Hub, s: SocketId, roomId: RoomId, candidate: Blob) returns (sent: seq<Emission>)
    modifies hub
    ensures FanOut(sent, Members(old(hub.groups), roomId) - {s}, WebrtcIce(roomId, candidate))
    ensures hub.outbox == old(hub.outbox) + sent
    ensures hub.live == old(hub.live) && hub.groups == old(hub.groups)
  {
    sent := hub.Broadcast(roomId, s, WebrtcIce(roomId, candidate));
  }

  /** message: the bare message string, not wrapped with the room id, to every other member. */
  method OnMessage(hub: Hub, s: SocketId, roomId: RoomId, message: Blob) returns (sent: seq<Emission>)
    modifies hub
    ensures FanOut(sent, Members(old(hub.groups), roomId) - {s}, Message(message))
    ensures hub.outbox == old(hub.outbox) + sent
    ensures hub.live == old(hub.live) && hub.groups == old(hub.groups)
  {
    sent := hub.Broadcast(roomId, s, Message(message));
  }

  /** Each other member of the room receives one copy of the relayed message; the sender none. */
  lemma MessageReachesOthers(sent: seq<Emission>, members: set<SocketId>, s: SocketId, message: Blob, t: SocketId)
    requires FanOut(sent, members - {s}, Message(message))
    ensures Received(sent, t, Message(message)) == if t in members && t != s then 1 else 0
    ensures Received(sent, s, Message(message)) == 0
  {
    FanOutOnce(sent, members - {s}, Message(message), t);
    FanOutOnce(sent, members - {s}, Message(message), s);
  }

  // ----- handleLeave -----

  /** The relay state the leave and disconnect handlers change. */
  datatype Relay = Relay(rooms: map<RoomId, Room>, order: seq<RoomId>,
                         groups: map<RoomId, set<SocketId>>, outbox: seq<Emission>)

  function Snapshot(registry: RoomRegistry, hub: Hub): Relay
    reads registry, hub
  {
    Relay(registry.rooms, registry.order, hub.groups, hub.outbox)
  }

  /** `users.filter(id => id !== departing)`. */
  function Remaining(users: seq<SocketId>, departing: SocketId): (r: seq<SocketId>)
    ensures forall t :: t in r <==> t in users && t != departing
  {
    if users == [] then []
    else (if users[0] != departing then [users[0]] else []) + Remaining(users[1..], departing)
  }

  /** One stranger_left `{roomId}` to each of `targets`, in order. */
  function Notify(targets: seq<SocketId>, roomId: RoomId): seq<Emission> {
    if targets == [] then [] else [Emission(targets[0], StrangerLeft(roomId))] + Notify(targets[1..], roomId)
  }

  lemma {:induction false} NotifyConcat(a: seq<SocketId>, b: seq<SocketId>, roomId: RoomId)
    ensures Notify(a + b, roomId) == Notify(a, roomId) + Notify(b, roomId)
  {
    if a == [] {
      assert a + b == b;
    } else {
      assert (a + b)[0] == a[0];
      assert (a + b)[1..] == a[1..] + b;
      NotifyConcat(a[1..], b, roomId);
    }
  }

  /** The notices handleLeave sends for `room` when `departing` leaves it. */
  function LeaveNotices(room: Room, roomId: RoomId, departing: SocketId): seq<Emission> {
    Notify(Remaining(room.Users(), departing), roomId)
  }

  /** handleLeave(roomId, departing) on the relay state: nothing for an unknown room; otherwise
      the notices, the room deleted, and the departing socket out of the room's group. */
  function Leave(st: Relay, roomId: RoomId, departing: SocketId): Relay {
    if roomId !in st.rooms then st
    else Relay(st.rooms - {roomId}, Without(st.order, {roomId}), Left(st.groups, roomId, departing),
               st.outbox + LeaveNotices(st.rooms[roomId], roomId, departing))
  }

  /** How often `t` is sent `ev` by the notices of one leave: once per place it holds in the room,
      if it is not the departing socket and `ev` is that room's stranger_left; otherwise never. */
  lemma LeaveNoticesCount(room: Room, roomId: RoomId, departing: SocketId, t: SocketId, ev: Event)
    ensures Received(LeaveNotices(room, roomId, departing), t, ev)
         == if t == departing || ev != StrangerLeft(roomId) then 0
            else (if room.user1 == t then 1 else 0) + (if room.user2 == t then 1 else 0)
  {
    var a := if room.user1 != departing then [room.user1] else [];
    var b := if room.user2 != departing then [room.user2] else [];
    assert [room.user2][1..] == [];
    assert Remaining([room.user2], departing) == b;
    assert room.Users()[1..] == [room.user2];
    assert Remaining(room.Users(), departing) == a + b;
    NotifyConcat(a, b, roomId);
    ReceivedConcat(Notify(a, roomId), Notify(b, roomId), t, ev);
    NotifyOne(room.user1, room.user1 != departing, roomId, t, ev);
    NotifyOne(room.user2, room.user2 != departing, roomId, t, ev);
  }

  lemma NotifyOne(u: SocketId, present: bool, roomId: RoomId, t: SocketId, ev: Event)
    ensures Received(Notify(if present then [u] else [], roomId), t, ev)
         == if present && u == t && ev == StrangerLeft(roomId) then 1 else 0
  {
    if present {
      assert [u][1..] == [];
      assert Notify([u], roomId) == [Emission(u, StrangerLeft(roomId))];
      assert [Emission(u, StrangerLeft(roomId))][1..] == [];
    }
  }

  /** In a room of two different sockets, the partner of the departing socket is told exactly once
      and the departing socket is told nothing. */
  lemma LeaveTellsPartnerOnce(room: Room, roomId: RoomId, departing: SocketId, partner: SocketId)
    requires room.user1 != room.user2
    requires departing in room.Users() && partner in room.Users() && partner != departing
    ensures Received(LeaveNotices(room, roomId, departing), partner, StrangerLeft(roomId)) == 1
    ensures forall ev :: Received(LeaveNotices(room, roomId, departing), departing, ev) == 0
  {
    LeaveNoticesCount(room, roomId, departing, partner, StrangerLeft(roomId));
    forall ev
      ensures Received(LeaveNotices(room, roomId, departing), departing, ev) == 0
    {
      LeaveNoticesCount(room, roomId, departing, departing, ev);
    }
  }

  /** A leave deletes exactly that room, takes the departing socket out of that room's group, and
      leaves every other room and group as it was. */
  lemma LeaveRemovesRoom(st: Relay, roomId: RoomId, departing: SocketId)
    ensures var r := Leave(st, roomId, departing);
            && r.rooms == st.rooms - {roomId}
            && (roomId in st.rooms ==> departing !in Members(r.groups, roomId))
            && (forall other :: other != roomId ==> Members(r.groups, other) == Members(st.groups, other))
  {
  }

  /** A leave for a room that is not registered changes nothing, and emits nothing. */
  lemma LeaveUnknownRoom(st: Relay, roomId: RoomId, departing: SocketId)
    requires roomId !in st.rooms
    ensures Leave(st, roomId, departing) == st
  {
  }

  /** Leave is idempotent: a second leave for the same room finds no room and does nothing. */
  lemma LeaveIdempotent(st: Relay, roomId: RoomId, departing: SocketId)
    ensures Leave(Leave(st, roomId, departing), roomId, departing) == Leave(st, roomId, departing)
  {
    LeaveRemovesRoom(st, roomId, departing);
    LeaveUnknownRoom(Leave(st, roomId, departing), roomId, departing);
  }

  /** handleLeave(roomId, departingSocket, io). */
  method HandleLeave(registry: RoomRegistry, hub: Hub, roomId: RoomId, departing: SocketId)
    requires registry.Valid()
    modifies registry, hub
    ensures registry.Valid()
    ensures Snapshot(registry, hub) == Leave(old(Snapshot(registry, hub)), roomId, departing)
    ensures registry.nextId == old(registry.nextId) && hub.live == old(hub.live)
  {
    var users := registry.GetRoom(roomId);
    match users {
      case None =>
        return;
      case Some(room) =>
        var remaining := Remaining(room.Users(), departing);
        var i := 0;
        while i < |remaining|
          invariant 0 <= i <= |remaining|
          invariant hub.outbox == old(hub.outbox) + Notify(remaining[..i], roomId)
          invariant hub.live == old(hub.live) && hub.groups == old(hub.groups)
          invariant unchanged(registry)
        {
          hub.Emit(remaining[i], StrangerLeft(roomId));
          assert remaining[..i + 1] == remaining[..i] + [remaining[i]];
          NotifyConcat(remaining[..i], [remaining[i]], roomId);
          i := i + 1;
        }
        assert remaining[..i] == remaining;
        registry.DeleteRoom(roomId);
        hub.Leave(departing, roomId);
    }
  }

  /** The leave event: handleLeave for the room the client names. */
  method OnLeave(registry: RoomRegistry, hub: Hub, s: SocketId, roomId: RoomId)
    requires registry.Valid()
    modifies registry, hub
    ensures registry.Valid()
    ensures Snapshot(registry, hub) == Leave(old(Snapshot(registry, hub)), roomId, s)
    ensures registry.nextId == old(registry.nextId) && hub.live == old(hub.live)
  {
    HandleLeave(registry, hub, roomId, s);
  }

  // ----- disconnect -----

  /** One entry of the disconnect loop: handleLeave when the entry's users include the socket. */
  function Step(st: Relay, entry: (RoomId, Room), s: SocketId): Relay {
    if s in entry.1.Users() then Leave(st, entry.0, s) else st
  }

  /** The disconnect loop over the entries, first to last. */
  function LeaveAll(st: Relay, entries: seq<(RoomId, Room)>, s: SocketId): Relay {
    if entries == [] then st
    else Step(LeaveAll(st, entries[..|entries| - 1], s), entries[|entries| - 1], s)
  }

  lemma LeaveAllStep(st: Relay, entries: seq<(RoomId, Room)>, i: nat, s: SocketId)
    requires i < |entries|
    ensures LeaveAll(st, entries[..i + 1], s) == Step(LeaveAll(st, entries[..i], s), entries[i], s)
  {
    assert entries[..i + 1][..i] == entries[..i];
  }

  /** The ids of the entries whose users include the socket. */
  function Affected(entries: seq<(RoomId, Room)>, s: SocketId): set<RoomId> {
    if entries == [] then {}
    else Affected(entries[..|entries| - 1], s)
         + (if s in entries[|entries| - 1].1.Users() then {entries[|entries| - 1].0} else {})
  }

  /** The notices of the disconnect loop, in emission order. */
  function DisconnectNotices(entries: seq<(RoomId, Room)>, s: SocketId): seq<Emission> {
    if entries == [] then []
    else
      var last := entries[|entries| - 1];
      DisconnectNotices(entries[..|entries| - 1], s)
      + (if s in last.1.Users() then LeaveNotices(last.1, last.0, s) else [])
  }

  /** The entries list the registry's rooms: each entry's room is the registered one and no id is
      listed twice. */
  ghost predicate Lists(rooms: map<RoomId, Room>, entries: seq<(RoomId, Room)>) {
    && (forall j :: 0 <= j < |entries| ==> entries[j].0 in rooms && rooms[entries[j].0] == entries[j].1)
    && (forall i, j :: 0 <= i < j < |entries| ==> entries[i].0 != entries[j].0)
  }

  lemma {:induction false} AffectedMembers(entries: seq<(RoomId, Room)>, s: SocketId, id: RoomId)
    ensures id in Affected(entries, s) <==>
              exists j :: 0 <= j < |entries| && entries[j].0 == id && s in entries[j].1.Users()
  {
    if entries != [] {
      var n := |entries| - 1;
      var prefix := entries[..n];
      AffectedMembers(prefix, s, id);
      if exists j :: 0 <= j < |entries| && entries[j].0 == id && s in entries[j].1.Users() {
        var j :| 0 <= j < |entries| && entries[j].0 == id && s in entries[j].1.Users();
        if j < n {
          assert prefix[j] == entries[j];
        }
      }
      if exists j :: 0 <= j < |prefix| && prefix[j].0 == id && s in prefix[j].1.Users() {
        var j :| 0 <= j < |prefix| && prefix[j].0 == id && s in prefix[j].1.Users();
        assert entries[j] == prefix[j];
      }
    }
  }

  /** The disconnect loop deletes exactly the rooms of the entries that hold the socket. */
  lemma {:induction false} LeaveAllRooms(st: Relay, entries: seq<(RoomId, Room)>, s: SocketId)
    ensures LeaveAll(st, entries, s).rooms == st.rooms - Affected(entries, s)
  {
    if entries != [] {
      LeaveAllRooms(st, entries[..|entries| - 1], s);
    }
  }

  /** When the entries list the registry, the loop finds each affected room still registered and
      sends its notices: the outbox grows by the notices of every affected room, in entry order. */
  lemma {:induction false} LeaveAllOutbox(st: Relay, entries: seq<(RoomId, Room)>, s: SocketId)
    requires Lists(st.rooms, entries)
    ensures LeaveAll(st, entries, s).outbox == st.outbox + DisconnectNotices(entries, s)
  {
    if entries != [] {
      var n := |entries| - 1;
      var prefix, last := entries[..n], entries[n];
      assert Lists(st.rooms, prefix);
      LeaveAllOutbox(st, prefix, s);
      LeaveAllRooms(st, prefix, s);
      AffectedMembers(prefix, s, last.0);
      assert last.0 !in Affected(prefix, s);
    }
  }

  /** After the disconnect loop over every room, no remaining room holds the socket. */
  lemma NoRoomHoldsSocket(st: Relay, entries: seq<(RoomId, Room)>, s: SocketId)
    requires Lists(st.rooms, entries)
    requires forall id :: id in st.rooms ==> exists j :: 0 <= j < |entries| && entries[j].0 == id
    ensures var rooms := LeaveAll(st, entries, s).rooms;
            forall id :: id in rooms ==> s !in rooms[id].Users()
  {
    LeaveAllRooms(st, entries, s);
    var rooms := LeaveAll(st, entries, s).rooms;
    forall id | id in rooms
      ensures s !in rooms[id].Users()
    {
      var j :| 0 <= j < |entries| && entries[j].0 == id;
      AffectedMembers(entries, s, id);
    }
  }

  /** In the disconnect notices, the partner of the socket in an affected room of two different
      sockets is sent that room's stranger_left exactly once, and the socket itself nothing. */
  lemma {:induction false} DisconnectTellsPartnerOnce(entries: seq<(RoomId, Room)>, s: SocketId, j: nat, partner: SocketId)
    requires forall a, b :: 0 <= a < b < |entries| ==> entries[a].0 != entries[b].0
    requires j < |entries|
    requires entries[j].1.user1 != entries[j].1.user2
    requires s in entries[j].1.Users() && partner in entries[j].1.Users() && partner != s
    ensures Received(DisconnectNotices(entries, s), partner, StrangerLeft(entries[j].0)) == 1
  {
    var n := |entries| - 1;
    var prefix, last := entries[..n], entries[n];
    var ev := StrangerLeft(entries[j].0);
    var tail := if s in last.1.Users() then LeaveNotices(last.1, last.0, s) else [];
    assert DisconnectNotices(entries, s) == DisconnectNotices(prefix, s) + tail;
    ReceivedConcat(DisconnectNotices(prefix, s), tail, partner, ev);
    if j == n {
      assert tail == LeaveNotices(last.1, last.0, s);
      LeaveTellsPartnerOnce(last.1, last.0, s, partner);
      forall a | 0 <= a < n
        ensures prefix[a].0 != entries[j].0
      {
        assert prefix[a] == entries[a];
      }
      NoNoticesFor(prefix, s, partner, entries[j].0);
    } else {
      assert prefix[j] == entries[j];
      assert last.0 != entries[j].0;
      forall a, b | 0 <= a < b < n
        ensures prefix[a].0 != prefix[b].0
      {
        assert prefix[a] == entries[a] && prefix[b] == entries[b];
      }
      DisconnectTellsPartnerOnce(prefix, s, j, partner);
      LeaveNoticesCount(last.1, last.0, s, partner, ev);
    }
  }

  /** No notice names a room that is not among the entries. */
  lemma {:induction false} NoNoticesFor(entries: seq<(RoomId, Room)>, s: SocketId, t: SocketId, id: RoomId)
    requires forall j :: 0 <= j < |entries| ==> entries[j].0 != id
    ensures Received(DisconnectNotices(entries, s), t, StrangerLeft(id)) == 0
  {
    if entries != [] {
      var n := |entries| - 1;
      var last := entries[n];
      var tail := if s in last.1.Users() then LeaveNotices(last.1, last.0, s) else [];
      assert forall j :: 0 <= j < n ==> entries[..n][j] == entries[j];
      NoNoticesFor(entries[..n], s, t, id);
      ReceivedConcat(DisconnectNotices(entries[..n], s), tail, t, StrangerLeft(id));
      assert last.0 != id;
      LeaveNoticesCount(last.1, last.0, s, t, StrangerLeft(id));
    }
  }

  /** The disconnecting socket is sent nothing by the disconnect loop. */
  lemma {:induction false} DisconnectTellsSocketNothing(entries: seq<(RoomId, Room)>, s: SocketId, ev: Event)
    ensures Received(DisconnectNotices(entries, s), s, ev) == 0
  {
    if entries != [] {
      var n := |entries| - 1;
      var last := entries[n];
      var tail := if s in last.1.Users() then LeaveNotices(last.1, last.0, s) else [];
      DisconnectTellsSocketNothing(entries[..n], s, ev);
      ReceivedConcat(DisconnectNotices(entries[..n], s), tail, s, ev);
      LeaveNoticesCount(last.1, last.0, s, s, ev);
    }
  }

  /** The room loop of disconnect: handleLeave for every room whose users include the socket,
      walking the rooms in insertion order. */
  method LeaveRooms(registry: RoomRegistry, hub: Hub, s: SocketId)
    requires registry.Valid()
    modifies registry, hub
    ensures registry.Valid() && hub.live == old(hub.live)
    ensures Snapshot(registry, hub) == LeaveAll(old(Snapshot(registry, hub)), old(registry.AllRooms()), s)
  {
    var entries := registry.AllRooms();
    ghost var st0 := Snapshot(registry, hub);
    var i := 0;
    while i < |entries|
      invariant 0 <= i <= |entries|
      invariant registry.Valid() && hub.live == old(hub.live)
      invariant Snapshot(registry, hub) == LeaveAll(st0, entries[..i], s)
    {
      LeaveIfMember(registry, hub, entries[i], s);
      LeaveAllStep(st0, entries, i, s);
      i := i + 1;
    }
    assert entries[..i] == entries;
  }

  /** One pass of the room loop: handleLeave when the entry's users include the socket. */
  method LeaveIfMember(registry: RoomRegistry, hub: Hub, entry: (RoomId, Room), s: SocketId)
    requires registry.Valid()
    modifies registry, hub
    ensures registry.Valid() && hub.live == old(hub.live)
    ensures Snapshot(registry, hub) == Step(old(Snapshot(registry, hub)), entry, s)
  {
    var roomId, users := entry.0, entry.1;
    if s in users.Users() {
      HandleLeave(registry, hub, roomId, s);
    }
  }

  /** disconnect: removeFromQueue, then the room loop. Afterwards no registered room holds the
      socket, exactly the rooms that held it are gone, and their remaining users were told. */
  method OnDisconnect(store: QueueStore, registry: RoomRegistry, hub: Hub, s: SocketId)
    requires registry.Valid()
    modifies store, registry, hub
    ensures registry.Valid() && hub.live == old(hub.live)
    ensures store.items == RemoveEntry(old(store.items), s)
    ensures Snapshot(registry, hub) == LeaveAll(old(Snapshot(registry, hub)), old(registry.AllRooms()), s)
    ensures registry.rooms == old(registry.rooms) - Affected(old(registry.AllRooms()), s)
    ensures forall id :: id in registry.rooms ==> s !in registry.rooms[id].Users()
    ensures hub.outbox == old(hub.outbox) + DisconnectNotices(old(registry.AllRooms()), s)
  {
    ghost var st0 := Snapshot(registry, hub);
    ghost var entries := registry.AllRooms();
    RemoveFromQueue(store, s);
    LeaveRooms(registry, hub, s);
    LeaveAllRooms(st0, entries, s);
    LeaveAllOutbox(st0, entries, s);
    NoRoomHoldsSocket(st0, entries, s);
  }
}
