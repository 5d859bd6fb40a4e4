/** The matchmaking engine: removeFromQueue, the cleaning scan of the shared queue, the choice of
    a partner, and addToQueue, which either pairs the caller or appends it to the queue. */
module Matchmaking {
  import opened Wrappers
  import opened Codec
  import opened Store
  import opened Interests
  import opened Rooms
  import opened Sockets
  import Text

  // ----- Entries of one socket -----

  /** The raw text parses as an entry of socket `id`. */
  predicate IsEntryOf(raw: string, id: SocketId) {
    match Deserialize(raw)
    case Some(item) => item.socketId == id
    case None => false
  }

  /** The number of entries of socket `id` in the queue. */
  function EntryCount(q: seq<string>, id: SocketId): nat {
    if q == [] then 0 else (if IsEntryOf(q[0], id) then 1 else 0) + EntryCount(q[1..], id)
  }

  /** The queue invariant addToQueue is meant to keep: no socket has two entries. */
  ghost predicate AtMostOneEntryEach(q: seq<string>) {
    forall id :: EntryCount(q, id) <= 1
  }

  /** Every entry is the text Serialize writes for it. */
  ghost predicate AllCanonical(q: seq<string>) {
    forall raw :: raw in q ==> Canonical(raw)
  }

  lemma {:induction false} EntryCountConcat(a: seq<string>, b: seq<string>, id: SocketId)
    ensures EntryCount(a + b, id) == EntryCount(a, id) + EntryCount(b, id)
  {
    if a == [] {
      assert a + b == b;
    } else {
      assert (a + b)[0] == a[0];
      assert (a + b)[1..] == a[1..] + b;
      EntryCountConcat(a[1..], b, id);
    }
  }

  /** LREM never adds an entry. */
  lemma {:induction false} EntryCountRemoveFirst(q: seq<string>, v: string, id: SocketId)
    ensures EntryCount(RemoveFirst(q, v), id) <= EntryCount(q, id)
  {
    if q != [] && q[0] != v {
      EntryCountRemoveFirst(q[1..], v, id);
      assert RemoveFirst(q, v) == [q[0]] + RemoveFirst(q[1..], v);
      EntryCountConcat([q[0]], RemoveFirst(q[1..], v), id);
    }
  }

  /** RPUSH of an entry the caller wrote adds one entry for the caller and none for anyone else. */
  lemma EntryCountPush(q: seq<string>, item: QueueItem, id: SocketId)
    ensures EntryCount(q + [Serialize(item)], id)
         == EntryCount(q, id) + (if id == item.socketId then 1 else 0)
  {
    RoundTrip(item);
    EntryCountConcat(q, [Serialize(item)], id);
    assert [Serialize(item)][1..] == [];
  }

  // ----- removeFromQueue -----

  /** The position of the first entry of `id` (|q| when there is none). */
  function EntryIndex(q: seq<string>, id: SocketId): (k: nat)
    ensures k <= |q|
    ensures k < |q| ==> IsEntryOf(q[k], id)
    ensures forall j :: 0 <= j < k ==> !IsEntryOf(q[j], id)
  {
    if q == [] then 0
    else if IsEntryOf(q[0], id) then 0
    else 1 + EntryIndex(q[1..], id)
  }

  /** The queue after removeFromQueue(id): without the first entry of id, everything else in order. */
  function RemoveEntry(q: seq<string>, id: SocketId): seq<string> {
    var k := EntryIndex(q, id);
    if k < |q| then q[..k] + q[k + 1..] else q
  }

  /** removeFromQueue removes one entry of the socket when it has one, and no entry of any other
      socket. */
  lemma RemoveEntryCount(q: seq<string>, id: SocketId, other: SocketId)
    ensures EntryCount(RemoveEntry(q, id), other)
         == EntryCount(q, other) - (if other == id && EntryCount(q, id) > 0 then 1 else 0)
  {
    var k := EntryIndex(q, id);
    if k < |q| {
      assert q == q[..k] + [q[k]] + q[k + 1..];
      EntryCountConcat(q[..k] + [q[k]], q[k + 1..], other);
      EntryCountConcat(q[..k], [q[k]], other);
      EntryCountConcat(q[..k], q[k + 1..], other);
      assert [q[k]][1..] == [];
      if other == id {
        assert EntryCount(q, id) > 0;
      }
    } else {
      NoEntries(q, id);
    }
  }

  lemma {:induction false} NoEntries(q: seq<string>, id: SocketId)
    requires forall j :: 0 <= j < |q| ==> !IsEntryOf(q[j], id)
    ensures EntryCount(q, id) == 0
  {
    if q != [] {
      NoEntries(q[1..], id);
    }
  }

  /** removeFromQueue(socketId): reads the list, and LREMs the first entry that parses and names
      the socket; texts that do not parse are skipped. */
  method RemoveFromQueue(store: QueueStore, id: SocketId)
    modifies store
    ensures store.items == RemoveEntry(old(store.items), id)
  {
    var raws := store.Range();
    var i := 0;
    while i < |raws|
      invariant 0 <= i <= |raws|
      invariant forall j :: 0 <= j < i ==> !IsEntryOf(raws[j], id)
      invariant store.items == raws
    {
      match Deserialize(raws[i]) {
        case Some(item) =>
          if item.socketId == id {
            assert raws[i] !in raws[..i];
            RemoveFirstIndex(raws, i);
            store.Remove(raws[i]);
            break;
          }
        case None =>
      }
      i := i + 1;
    }
  }

  // ----- The cleaning scan -----

  /** The scan keeps an entry when it parses and names a connected socket. */
  predicate Keeps(raw: string, live: set<SocketId>) {
    match Deserialize(raw)
    case Some(item) => item.socketId in live
    case None => false
  }

  /** The queue after the scan: the kept texts, in their order. */
  function Survivors(raws: seq<string>, live: set<SocketId>): (r: seq<string>)
    ensures forall x :: x in r <==> x in raws && Keeps(x, live)
    ensures |r| <= |raws|
  {
    if raws == [] then []
    else (if Keeps(raws[0], live) then [raws[0]] else []) + Survivors(raws[1..], live)
  }

  /** The scan works entry by entry: it keeps the FIFO order of the survivors. */
  lemma {:induction false} SurvivorsConcat(a: seq<string>, b: seq<string>, live: set<SocketId>)
    ensures Survivors(a + b, live) == Survivors(a, live) + Survivors(b, live)
  {
    if a == [] {
      assert a + b == b;
    } else {
      assert (a + b)[0] == a[0];
      assert (a + b)[1..] == a[1..] + b;
      SurvivorsConcat(a[1..], b, live);
    }
  }

  /** The scan never adds an entry. */
  lemma {:induction false} EntryCountSurvivors(q: seq<string>, live: set<SocketId>, id: SocketId)
    ensures EntryCount(Survivors(q, live), id) <= EntryCount(q, id)
  {
    if q != [] {
      EntryCountSurvivors(q[1..], live, id);
      EntryCountConcat(if Keeps(q[0], live) then [q[0]] else [], Survivors(q[1..], live), id);
    }
  }

  /** What the scan collects from one text: its item when it is kept, nothing otherwise. */
  function Collect(raw: string, live: set<SocketId>): seq<QueueItem> {
    match Deserialize(raw)
    case Some(item) => if item.socketId in live then [item] else []
    case None => []
  }

  /** The items the scan collects: the parsed survivors, in their order. */
  function Parsed(raws: seq<string>, live: set<SocketId>): seq<QueueItem> {
    if raws == [] then []
    else Collect(raws[0], live) + Parsed(raws[1..], live)
  }

  lemma {:induction false} ParsedConcat(a: seq<string>, b: seq<string>, live: set<SocketId>)
    ensures Parsed(a + b, live) == Parsed(a, live) + Parsed(b, live)
  {
    if a == [] {
      assert a + b == b;
    } else {
      assert (a + b)[0] == a[0];
      assert (a + b)[1..] == a[1..] + b;
      ParsedConcat(a[1..], b, live);
    }
  }

  /** Position by position, the collected items are the parsed surviving texts. */
  lemma {:induction false} ParsedMatches(raws: seq<string>, live: set<SocketId>)
    ensures |Parsed(raws, live)| == |Survivors(raws, live)|
    ensures forall j :: 0 <= j < |Survivors(raws, live)| ==>
              Deserialize(Survivors(raws, live)[j]) == Some(Parsed(raws, live)[j])
    ensures forall j :: 0 <= j < |Parsed(raws, live)| ==> Parsed(raws, live)[j].socketId in live
  {
    if raws != [] {
      ParsedMatches(raws[1..], live);
    }
  }

  /** Every collected item names a connected socket. */
  lemma ParsedLive(raws: seq<string>, live: set<SocketId>, j: nat)
    requires j < |Parsed(raws, live)|
    ensures Parsed(raws, live)[j].socketId in live
  {
    ParsedMatches(raws, live);
  }

  /** One step of the scan: the survivors of a longer prefix. */
  lemma ScanStep(raws: seq<string>, i: nat, live: set<SocketId>)
    requires i < |raws|
    ensures Survivors(raws[..i + 1], live)
         == Survivors(raws[..i], live) + (if Keeps(raws[i], live) then [raws[i]] else [])
  {
    assert raws[..i + 1] == raws[..i] + [raws[i]];
    SurvivorsConcat(raws[..i], [raws[i]], live);
    assert [raws[i]][1..] == [];
  }

  /** A kept text stays where it is in the list. */
  lemma KeepStep(raws: seq<string>, i: nat, live: set<SocketId>)
    requires i < |raws| && Keeps(raws[i], live)
    ensures Survivors(raws[..i], live) + raws[i..] == Survivors(raws[..i + 1], live) + raws[i + 1..]
  {
    var kept := Survivors(raws[..i], live);
    ScanStep(raws, i, live);
    assert Survivors(raws[..i + 1], live) == kept + [raws[i]];
    Shift(kept, raws, i);
  }

  lemma Shift(a: seq<string>, q: seq<string>, i: nat)
    requires i < |q|
    ensures a + q[i..] == (a + [q[i]]) + q[i + 1..]
  {
    assert q[i..] == [q[i]] + q[i + 1..];
  }

  /** LREM of a dropped text removes that very occurrence: no kept text before it equals it. */
  lemma DropStep(raws: seq<string>, i: nat, live: set<SocketId>)
    requires i < |raws| && !Keeps(raws[i], live)
    ensures RemoveFirst(Survivors(raws[..i], live) + raws[i..], raws[i])
         == Survivors(raws[..i + 1], live) + raws[i + 1..]
  {
    var kept := Survivors(raws[..i], live);
    ScanStep(raws, i, live);
    assert raws[i..] == [raws[i]] + raws[i + 1..];
    assert kept + raws[i..] == kept + [raws[i]] + raws[i + 1..];
    RemoveFirstAt(kept, raws[i], raws[i + 1..]);
  }

  /** The collected items grow by the parsed kept text. */
  lemma ParsedStep(raws: seq<string>, i: nat, live: set<SocketId>)
    requires i < |raws|
    ensures Parsed(raws[..i + 1], live)
         == Parsed(raws[..i], live) + Collect(raws[i], live)
  {
    assert raws[..i + 1] == raws[..i] + [raws[i]];
    ParsedConcat(raws[..i], [raws[i]], live);
    assert [raws[i]][1..] == [];
  }

  /** The first loop of addToQueue: every text that does not parse, or names a socket that is no
      longer connected, is LREMed on the spot; the others are parsed into `queue`. */
  method CleanQueue(store: QueueStore, live: set<SocketId>) returns (queue: seq<QueueItem>)
    modifies store
    ensures store.items == Survivors(old(store.items), live)
    ensures queue == Parsed(old(store.items), live)
  {
    var raws := store.Range();
    queue := [];
    var i := 0;
    while i < |raws|
      invariant 0 <= i <= |raws|
      invariant store.items == Survivors(raws[..i], live) + raws[i..]
      invariant queue == Parsed(raws[..i], live)
    {
      var raw := raws[i];
      ParsedStep(raws, i, live);
      match Deserialize(raw) {
        case Some(item) =>
          if item.socketId in live {
            KeepStep(raws, i, live);
            queue := queue + [item];
          } else {
            DropStep(raws, i, live);
            store.Remove(raw);
          }
        case None =>
          DropStep(raws, i, live);
          store.Remove(raw);
      }
      i := i + 1;
    }
    assert raws[..i] == raws;
    assert raws[i..] == [];
  }

  // ----- The choice of a partner -----

  /** The tags shared by the caller's normalised tags and a queued entry's. */
  function Shared(mine: seq<string>, item: QueueItem): seq<string> {
    CommonInterests(Some(mine), Some(NormalizeList(item.interests)))
  }

  /** Position k holds the partner the engine must choose: the earliest entry of another socket
      that shares an interest, or, when no such entry exists, the earliest entry of another socket. */
  predicate IsChoice(queue: seq<QueueItem>, me: SocketId, mine: seq<string>, k: nat) {
    && k < |queue|
    && queue[k].socketId != me
    && if |Shared(mine, queue[k])| > 0 then
         forall j :: 0 <= j < k && queue[j].socketId != me ==> |Shared(mine, queue[j])| == 0
       else
         && (forall j :: 0 <= j < |queue| && queue[j].socketId != me ==> |Shared(mine, queue[j])| == 0)
         && (forall j :: 0 <= j < k ==> queue[j].socketId == me)
  }

  /** At most one position is the choice. */
  lemma ChoiceUnique(queue: seq<QueueItem>, me: SocketId, mine: seq<string>, k1: nat, k2: nat)
    requires IsChoice(queue, me, mine, k1) && IsChoice(queue, me, mine, k2)
    ensures k1 == k2
  {
  }

  /** No entry before the choice is equal to it: an equal entry would have been chosen first. */
  lemma ChoiceIsFirstOfItsValue(queue: seq<QueueItem>, me: SocketId, mine: seq<string>, k: nat, j: nat)
    requires IsChoice(queue, me, mine, k) && j < k
    ensures queue[j] != queue[k]
  {
  }

  /** What the two loops of addToQueue settle on: the position, the entry, the text used to remove
      it, and the shared interests. */
  datatype Pick = Pick(index: nat, item: QueueItem, raw: string, common: seq<string>)

  /** The partner search of addToQueue: first the earliest other socket with a shared interest,
      then, failing that, `queue.find(q => q.socketId !== socket.id)`. */
  method FindMatch(queue: seq<QueueItem>, me: SocketId, mine: seq<string>) returns (pick: Option<Pick>)
    ensures pick.None? <==> forall j :: 0 <= j < |queue| ==> queue[j].socketId == me
    ensures pick.Some? ==>
              && IsChoice(queue, me, mine, pick.value.index)
              && pick.value.item == queue[pick.value.index]
              && pick.value.raw == Serialize(pick.value.item)
              && pick.value.common == Shared(mine, pick.value.item)
    ensures pick.Some? ==>
              (pick.value.common == [] <==>
               forall j :: 0 <= j < |queue| && queue[j].socketId != me ==> Shared(mine, queue[j]) == [])
  {
    pick := None;
    var i := 0;
    while i < |queue|
      invariant 0 <= i <= |queue|
      invariant forall j :: 0 <= j < i && queue[j].socketId != me ==> Shared(mine, queue[j]) == []
    {
      var item := queue[i];
      if item.socketId != me {
        var common := CommonInterests(Some(mine), Some(NormalizeList(item.interests)));
        if |common| > 0 {
          pick := Some(Pick(i, item, Serialize(item), common));
          break;
        }
      }
      i := i + 1;
    }
    if pick.None? && |queue| > 0 {
      var j := 0;
      while j < |queue| && queue[j].socketId == me
        invariant 0 <= j <= |queue|
        invariant forall l :: 0 <= l < j ==> queue[l].socketId == me
      {
        j := j + 1;
      }
      if j < |queue| {
        var candidate := queue[j];
        var common := CommonInterests(Some(mine), Some(NormalizeList(candidate.interests)));
        pick := Some(Pick(j, candidate, Serialize(candidate), common));
      }
    }
  }

  /** The tie-break: with A (interests ["x"]) queued before B (no interests), a
      searcher with ["x"] is paired with A. */
  lemma TieBreakExample()
    ensures IsChoice([QueueItem("A", Some(["x"])), QueueItem("B", Some([]))], "C", ["x"], 0)
  {
    var a := QueueItem("A", Some(["x"]));
    assert NormalizeTag("x") == "x" by {
      assert Text.TrimStart("x") == "x";
      assert Text.TrimEnd("x") == "x";
    }
    assert Normalize(["x"]) == ["x"];
    assert "x" in Shared(["x"], a);
  }

  /** The fallback: with only B (no interests) queued, a searcher with ["x"] is
      paired with B and shares nothing with it. */
  lemma FallbackExample()
    ensures IsChoice([QueueItem("B", Some([]))], "C", ["x"], 0)
    ensures Shared(["x"], QueueItem("B", Some([]))) == []
  {
  }

  // ----- addToQueue -----

  /** What a search ends in: appended to the queue, or paired in a new room. */
  datatype Outcome =
    | Queued
    | Paired(roomId: RoomId, partner: SocketId, commonInterests: seq<string>)

  /** The cleaned queue keeps the at-most-one-entry invariant and canonical texts, and holds no
      entry of the caller once the caller's old entry has been removed. */
  lemma ScanKeepsInvariants(q: seq<string>, me: SocketId, live: set<SocketId>)
    ensures var surv := Survivors(RemoveEntry(q, me), live);
            && (forall id :: EntryCount(surv, id) <= EntryCount(q, id))
            && (EntryCount(q, me) <= 1 ==> EntryCount(surv, me) == 0)
            && (AllCanonical(q) ==> AllCanonical(surv))
  {
    var q1 := RemoveEntry(q, me);
    forall id
      ensures EntryCount(Survivors(q1, live), id) <= EntryCount(q, id)
    {
      RemoveEntryCount(q, me, id);
      EntryCountSurvivors(q1, live, id);
    }
    RemoveEntryCount(q, me, me);
    EntryCountSurvivors(q1, live, me);
    var k := EntryIndex(q, me);
    if k < |q| {
      assert forall x :: x in q1 ==> x in q by {
        forall x | x in q1
          ensures x in q
        {
          var i :| 0 <= i < |q1| && q1[i] == x;
          if i < k {
            assert q[i] == x;
          } else {
            assert q[i + 1] == x;
          }
        }
      }
    }
  }

  /** Removing the chosen partner by its re-serialised text removes exactly that entry, provided
      every surviving entry is canonical. */
  lemma MatchedEntryLeaves(q: seq<string>, live: set<SocketId>, me: SocketId, mine: seq<string>, k: nat)
    requires AllCanonical(Survivors(q, live))
    requires IsChoice(Parsed(q, live), me, mine, k)
    ensures k < |Survivors(q, live)|
    ensures var surv := Survivors(q, live);
            && RemoveFirst(surv, Serialize(Parsed(q, live)[k])) == surv[..k] + surv[k + 1..]
            && AllCanonical(surv[..k] + surv[k + 1..])
  {
    var surv, items := Survivors(q, live), Parsed(q, live);
    ParsedMatches(q, live);
    assert surv[k] in surv;
    assert Deserialize(surv[k]) == Some(items[k]);
    forall j | 0 <= j < k
      ensures surv[j] != surv[k]
    {
      ChoiceIsFirstOfItsValue(items, me, mine, k, j);
    }
    assert surv[k] !in surv[..k];
    RemoveByReserialised(surv, k);
  }

  /** Removing by `JSON.stringify(JSON.parse(raw))` removes position k when the text there is
      canonical, reads as an entry, and is the first occurrence of its value. */
  lemma RemoveByReserialised(q: seq<string>, k: nat)
    requires k < |q| && Canonical(q[k]) && Deserialize(q[k]).Some?
    requires q[k] !in q[..k]
    ensures RemoveFirst(q, Serialize(Deserialize(q[k]).value)) == q[..k] + q[k + 1..]
  {
    assert Serialize(Deserialize(q[k]).value) == q[k];
    RemoveFirstIndex(q, k);
  }

  /** The connect branch of addToQueue: LREM of the partner's text, a new room, both sockets join
      it, and each is sent "matched" with the capitalised shared interests. */
  method Connect(store: QueueStore, registry: RoomRegistry, hub: Hub, me: SocketId, p: Pick)
    returns (roomId: RoomId, shown: seq<string>)
    requires registry.Valid()
    modifies store, registry, hub
    ensures registry.Valid() && hub.live == old(hub.live)
    ensures shown == CapitalizeAll(p.common)
    ensures store.items == RemoveFirst(old(store.items), p.raw)
    ensures roomId !in old(registry.rooms)
    ensures registry.rooms == old(registry.rooms)[roomId := Room(me, p.item.socketId)]
    ensures registry.order == old(registry.order) + [roomId]
    ensures hub.groups == Joined(Joined(old(hub.groups), roomId, me), roomId, p.item.socketId)
    ensures hub.outbox == old(hub.outbox) + [Emission(me, Matched(roomId, shown)),
                                             Emission(p.item.socketId, Matched(roomId, shown))]
  {
    store.Remove(p.raw);
    var partner := p.item.socketId;
    roomId := registry.CreateRoom(me, partner);
    hub.Join(me, roomId);
    hub.Join(partner, roomId);
    shown := CapitalizeAll(p.common);
    hub.Emit(me, Matched(roomId, shown));
    hub.Emit(partner, Matched(roomId, shown));
  }

  /** LREM keeps the queue invariants and adds no entry for anyone. */
  lemma RemoveKeeps(q: seq<string>, v: string)
    ensures forall id :: EntryCount(RemoveFirst(q, v), id) <= EntryCount(q, id)
    ensures AllCanonical(q) ==> AllCanonical(RemoveFirst(q, v))
    ensures AtMostOneEntryEach(q) ==> AtMostOneEntryEach(RemoveFirst(q, v))
  {
    forall id
      ensures EntryCount(RemoveFirst(q, v), id) <= EntryCount(q, id)
    {
      EntryCountRemoveFirst(q, v, id);
    }
  }

  /** RPUSH of the caller's entry adds one entry for the caller and keeps the queue invariants
      when the caller had none. */
  lemma PushKeeps(q: seq<string>, entry: QueueItem)
    ensures EntryCount(q + [Serialize(entry)], entry.socketId) == EntryCount(q, entry.socketId) + 1
    ensures AllCanonical(q) ==> AllCanonical(q + [Serialize(entry)])
    ensures AtMostOneEntryEach(q) && EntryCount(q, entry.socketId) == 0 ==>
              AtMostOneEntryEach(q + [Serialize(entry)])
  {
    SerializedIsCanonical(entry);
    forall id
      ensures EntryCount(q + [Serialize(entry)], id) == EntryCount(q, id) + (if id == entry.socketId then 1 else 0)
    {
      EntryCountPush(q, entry, id);
    }
  }

  /** addToQueue(socket, io, interests) for socket `me`; `interests` None stands for a value that
      is not an array. `k` is the position of the partner in the cleaned queue. */
  method AddToQueue(store: QueueStore, registry: RoomRegistry, hub: Hub, me: SocketId,
                    interests: Option<seq<string>>)
    returns (outcome: Outcome, ghost k: nat)
    requires registry.Valid()
    modifies store, registry, hub
    ensures registry.Valid() && hub.live == old(hub.live)
    ensures var q := RemoveEntry(old(store.items), me);
            var surv := Survivors(q, old(hub.live));
            var queue := Parsed(q, old(hub.live));
            var mine := NormalizeList(interests);
            match outcome
            case Queued =>
              && (forall j :: 0 <= j < |queue| ==> queue[j].socketId == me)
              && store.items == surv + [Serialize(QueueItem(me, Some(mine)))]
              && unchanged(registry) && unchanged(hub)
            case Paired(roomId, partner, shown) =>
              && IsChoice(queue, me, mine, k)
              && partner == queue[k].socketId && partner in hub.live
              && shown == CapitalizeAll(Shared(mine, queue[k]))
              && store.items == RemoveFirst(surv, Serialize(queue[k]))
              && (AllCanonical(old(store.items)) ==> k < |surv| && store.items == surv[..k] + surv[k + 1..])
              && roomId !in old(registry.rooms)
              && registry.rooms == old(registry.rooms)[roomId := Room(me, partner)]
              && registry.order == old(registry.order) + [roomId]
              && hub.groups == Joined(Joined(old(hub.groups), roomId, me), roomId, partner)
              && hub.outbox == old(hub.outbox) + [Emission(me, Matched(roomId, shown)),
                                                  Emission(partner, Matched(roomId, shown))]
    ensures AllCanonical(old(store.items)) ==> AllCanonical(store.items)
    ensures AtMostOneEntryEach(old(store.items)) ==> AtMostOneEntryEach(store.items)
    ensures EntryCount(old(store.items), me) <= 1 ==>
              EntryCount(store.items, me) == if outcome.Queued? then 1 else 0
  {
    ghost var q0 := store.items;
    RemoveFromQueue(store, me);
    ghost var q1 := store.items;
    var queue := CleanQueue(store, hub.live);
    ghost var surv := store.items;
    ScanKeepsInvariants(q0, me, hub.live);
    var mine := NormalizeList(interests);
    var pick := FindMatch(queue, me, mine);
    if pick.Some? {
      var p := pick.value;
      ParsedLive(q1, hub.live, p.index);
      if AllCanonical(q0) {
        MatchedEntryLeaves(q1, hub.live, me, mine, p.index);
      }
      RemoveKeeps(surv, p.raw);
      var roomId, shown := Connect(store, registry, hub, me, p);
      outcome := Paired(roomId, p.item.socketId, shown);
      k := p.index;
    } else {
      var entry := QueueItem(me, Some(mine));
      store.Push(Serialize(entry));
      PushKeeps(surv, entry);
      outcome := Queued;
      k := 0;
    }
  }
}
