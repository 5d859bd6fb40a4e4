/** The socket.io server as the relay sees it: which sockets are connected, which sockets are in
    each room's channel group, and the events emitted so far, in emission order. */
module Sockets {
  import opened Wrappers

  /** An opaque payload (an SDP offer or answer, an ICE candidate, a chat message), never parsed. */
  type Blob = string

  /** The outbound events, with their payloads. */
  datatype Event =
    | Matched(roomId: RoomId, commonInterests: seq<string>)
    | StrangerLeft(roomId: RoomId)
    | WebrtcOffer(roomId: RoomId, offer: Blob)
    | WebrtcAnswer(roomId: RoomId, answer: Blob)
    | WebrtcIce(roomId: RoomId, candidate: Blob)
    | Message(message: Blob)

  /** One emit: the socket it is addressed to and the event. */
  datatype Emission = Emission(target: SocketId, event: Event)

  /** The sockets in a room's channel group (none when the group does not exist). */
  function Members(groups: map<RoomId, set<SocketId>>, room: RoomId): set<SocketId> {
    if room in groups then groups[room] else {}
  }

  /** socket.join(room). */
  function Joined(groups: map<RoomId, set<SocketId>>, room: RoomId, s: SocketId): (g: map<RoomId, set<SocketId>>)
    ensures Members(g, room) == Members(groups, room) + {s}
    ensures forall r :: r != room ==> Members(g, r) == Members(groups, r)
  {
    groups[room := Members(groups, room) + {s}]
  }

  /** socket.leave(room). */
  function Left(groups: map<RoomId, set<SocketId>>, room: RoomId, s: SocketId): (g: map<RoomId, set<SocketId>>)
    ensures Members(g, room) == Members(groups, room) - {s}
    ensures forall r :: r != room ==> Members(g, r) == Members(groups, r)
  {
    if room in groups then groups[room := groups[room] - {s}] else groups
  }

  /** Joining a group twice leaves it as joining once. */
  lemma JoinIdempotent(groups: map<RoomId, set<SocketId>>, room: RoomId, s: SocketId)
    ensures Joined(Joined(groups, room, s), room, s) == Joined(groups, room, s)
  {
  }

  /** The number of emissions in `sent` that deliver `ev` to `t`. */
  function Received(sent: seq<Emission>, t: SocketId, ev: Event): nat {
    if sent == [] then 0
    else (if sent[0] == Emission(t, ev) then 1 else 0) + Received(sent[1..], t, ev)
  }

  lemma {:induction false} ReceivedConcat(a: seq<Emission>, b: seq<Emission>, t: SocketId, ev: Event)
    ensures Received(a + b, t, ev) == Received(a, t, ev) + Received(b, t, ev)
  {
    if a == [] {
      assert a + b == b;
    } else {
      assert (a + b)[0] == a[0];
      assert (a + b)[1..] == a[1..] + b;
      ReceivedConcat(a[1..], b, t, ev);
    }
  }

  /** `sent` delivers ev to every socket of `targets` and to no other socket, once each. */
  predicate FanOut(sent: seq<Emission>, targets: set<SocketId>, ev: Event) {
    && (forall i :: 0 <= i < |sent| ==> sent[i].event == ev && sent[i].target in targets)
    && (forall t :: t in targets ==> exists i :: 0 <= i < |sent| && sent[i].target == t)
    && (forall i, j :: 0 <= i < j < |sent| ==> sent[i].target != sent[j].target)
  }

  /** A fan-out delivers exactly one copy of the event to each target and none elsewhere. */
  lemma {:induction false} FanOutOnce(sent: seq<Emission>, targets: set<SocketId>, ev: Event, t: SocketId)
    requires FanOut(sent, targets, ev)
    ensures Received(sent, t, ev) == if t in targets then 1 else 0
    decreases |sent|
  {
    if sent != [] {
      var head := sent[0].target;
      var rest := targets - {head};
      assert FanOut(sent[1..], rest, ev) by {
        forall u | u in rest
          ensures exists i :: 0 <= i < |sent[1..]| && sent[1..][i].target == u
        {
          var i :| 0 <= i < |sent| && sent[i].target == u;
          assert i != 0;
          assert sent[1..][i - 1].target == u;
        }
        forall i | 0 <= i < |sent[1..]|
          ensures sent[1..][i].target in rest
        {
          assert sent[i + 1].target != head;
        }
      }
      FanOutOnce(sent[1..], rest, ev, t);
    }
  }

  /** The io server's state. */
  class Hub {
    /** io.sockets.sockets: the connected sockets. */
    var live: set<SocketId>
    /** The adapter's rooms: the channel group of each room id. */
    var groups: map<RoomId, set<SocketId>>
    /** Every emit so far, oldest first. */
    var outbox: seq<Emission>

    constructor (connected: set<SocketId>)
      ensures live == connected && groups == map[] && outbox == []
    {
      live := connected;
      groups := map[];
      outbox := [];
    }

    /** socket.join(room) for socket s. */
    method Join(s: SocketId, room: RoomId)
      modifies this
      ensures groups == Joined(old(groups), room, s)
      ensures live == old(live) && outbox == old(outbox)
    {
      groups := Joined(groups, room, s);
    }

    /** socket.leave(room) for socket s. */
    method Leave(s: SocketId, room: RoomId)
      modifies this
      ensures groups == Left(old(groups), room, s)
      ensures live == old(live) && outbox == old(outbox)
    {
      groups := Left(groups, room, s);
    }

    /** socket.emit / io.to(id).emit: one event addressed to one socket. */
    method Emit(target: SocketId, ev: Event)
      modifies this
      ensures outbox == old(outbox) + [Emission(target, ev)]
      ensures live == old(live) && groups == old(groups)
    {
      outbox := outbox + [Emission(target, ev)];
    }

    /** socket.to(room).emit(ev) from `sender`: one copy to every member of the room's group
        except the sender, in no particular order. */
    method Broadcast(room: RoomId, sender: SocketId, ev: Event) returns (sent: seq<Emission>)
      modifies this
      ensures FanOut(sent, Members(old(groups), room) - {sender}, ev)
      ensures outbox == old(outbox) + sent
      ensures live == old(live) && groups == old(groups)
    {
      var rest := Members(groups, room) - {sender};
      ghost var all := rest;
      sent := [];
      while rest != {}
        invariant rest <= all
        invariant outbox == old(outbox) + sent
        invariant live == old(live) && groups == old(groups)
        invariant forall i :: 0 <= i < |sent| ==> sent[i].event == ev && sent[i].target in all - rest
        invariant forall t :: t in all - rest ==> exists i :: 0 <= i < |sent| && sent[i].target == t
        invariant forall i, j :: 0 <= i < j < |sent| ==> sent[i].target != sent[j].target
        decreases rest
      {
        var t :| t in rest;
        Emit(t, ev);
        ghost var before, restBefore := sent, rest;
        sent := sent + [Emission(t, ev)];
        rest := rest - {t};
        forall u | u in all - rest
          ensures exists i :: 0 <= i < |sent| && sent[i].target == u
        {
          if u == t {
            assert sent[|sent| - 1].target == u;
          } else {
            assert u in all - restBefore;
            var i :| 0 <= i < |before| && before[i].target == u;
            assert sent[i].target == u;
          }
        }
      }
      assert all - rest == all;
    }
  }
}
