/** The room registry: a map from room id to the two sockets paired in it. */
module Rooms {
  import opened Wrappers

  /** The pair stored for a room, in the order createRoom received it. */
  datatype Room = Room(user1: SocketId, user2: SocketId) {
    /** The `[user1, user2]` array the registry stores. */
    function Users(): seq<SocketId> {
      [user1, user2]
    }
  }

  /** `order` with every id in `gone` removed, the rest in their order. */
  function Without(order: seq<RoomId>, gone: set<RoomId>): (r: seq<RoomId>)
    ensures forall id :: id in r <==> id in order && id !in gone
    ensures |r| <= |order|
  {
    if order == [] then []
    else if order[0] in gone then Without(order[1..], gone)
    else [order[0]] + Without(order[1..], gone)
  }

  predicate Distinct(order: seq<RoomId>) {
    forall i, j :: 0 <= i < j < |order| ==> order[i] != order[j]
  }

  lemma {:induction false} WithoutDistinct(order: seq<RoomId>, gone: set<RoomId>)
    requires Distinct(order)
    ensures Distinct(Without(order, gone))
  {
    if order != [] {
      WithoutDistinct(order[1..], gone);
      assert order[0] !in order[1..];
    }
  }

  /** The module-level `rooms` Map. JavaScript Maps iterate in insertion order, kept in `order`;
      `nextId` stands in for uuid(). */
  class RoomRegistry {
    var rooms: map<RoomId, Room>
    var order: seq<RoomId>
    var nextId: RoomId

    ghost predicate Valid()
      reads this
    {
      && (forall id :: id in rooms ==> id < nextId)
      && Distinct(order)
      && (forall id :: id in order <==> id in rooms)
    }

    constructor ()
      ensures Valid() && rooms == map[] && order == []
    {
      rooms := map[];
      order := [];
      nextId := 0;
    }

    /** createRoom: stores [user1, user2] under a fresh id and returns the id. */
    method CreateRoom(user1: SocketId, user2: SocketId) returns (id: RoomId)
      requires Valid()
      modifies this
      ensures Valid()
      ensures id !in old(rooms)
      ensures rooms == old(rooms)[id := Room(user1, user2)]
      ensures order == old(order) + [id]
    {
      id := nextId;
      nextId := nextId + 1;
      rooms := rooms[id := Room(user1, user2)];
      order := order + [id];
    }

    /** getRoom: the pair stored under id, or nothing. */
    function GetRoom(id: RoomId): (r: Option<Room>)
      reads this
      ensures r.Some? <==> id in rooms
      ensures r.Some? ==> r.value == rooms[id]
    {
      if id in rooms then Some(rooms[id]) else None
    }

    /** deleteRoom: removes id; an absent id is left absent. */
    method DeleteRoom(id: RoomId)
      requires Valid()
      modifies this
      ensures Valid()
      ensures rooms == old(rooms) - {id}
      ensures order == Without(old(order), {id})
      ensures nextId == old(nextId)
    {
      WithoutDistinct(order, {id});
      rooms := rooms - {id};
      order := Without(order, {id});
    }

    /** getAllRooms: every entry of the map, once each, in insertion order. */
    function AllRooms(): (entries: seq<(RoomId, Room)>)
      reads this
      requires Valid()
      ensures |entries| == |order|
      ensures forall i :: 0 <= i < |entries| ==>
                entries[i].0 == order[i] && entries[i].0 in rooms && entries[i].1 == rooms[entries[i].0]
      ensures forall id :: id in rooms ==> exists i :: 0 <= i < |entries| && entries[i].0 == id
      ensures forall i, j :: 0 <= i < j < |entries| ==> entries[i].0 != entries[j].0
    {
      var o, m := order, rooms;
      var entries := seq(|o|, i requires 0 <= i < |o| => (o[i], m[o[i]]));
      assert forall id :: id in rooms ==> exists i :: 0 <= i < |entries| && entries[i].0 == id by {
        forall id | id in rooms
          ensures exists i :: 0 <= i < |entries| && entries[i].0 == id
        {
          var i :| 0 <= i < |order| && order[i] == id;
          assert entries[i].0 == id;
        }
      }
      entries
    }
  }
}
