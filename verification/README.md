# Omegle-clone relay backend, modelled in Dafny

This project models the server side of a random video-chat relay. The relay has four parts:

- **Matchmaking.** Clients ask to be matched, optionally with a list of interest tags. They wait
  in a shared Redis list of JSON entries. Entries of disconnected sockets are purged, and a
  searcher is paired with the earliest waiting socket that shares an interest. Failing that, it is
  paired with the earliest waiting socket of any kind; failing that, it is appended to the queue.
- **Room registry.** A map from room id to the pair of sockets in the room.
- **Event router.** Per connection, it relays WebRTC signalling (offer, answer, ICE) and chat
  messages to the other members of a room. It notifies the partner with `stranger_left` when a
  socket leaves a room, and cleans up on disconnect.
- **Rate limiter.** A fixed-window hit counter per socket.

How the model is laid out:

- Each handler is one sequential step on explicit state.
- **The Redis queue** is the class `Store.QueueStore`. It holds a `seq<string>` and offers the
  three list commands the code uses: LRANGE, LREM with count 1, and RPUSH.
- **The room registry** is the class `Rooms.RoomRegistry`. `order` keeps the map's insertion
  order. Room ids are minted by a counter (`nextId`), standing in for uuid: the code only needs
  an id that is not yet a key.
- **The socket.io server** is the class `Sockets.Hub`. It holds the set of connected sockets, the
  channel group of each room, and an outbox recording every emitted event in order.
- **The rate limiter's table** is the class `RateLimiting.RateLimiter`.
- **Each operation that mutates** is a method whose `ensures` gives the whole new state, usually
  in terms of a pure specification function. The properties the code promises are proved about
  those functions as lemmas.
- **Specification functions** are the pure definitions the method contracts and lemmas are stated
  in. The main ones are `Codec.Serialize` and `Codec.Deserialize` (`JSON.stringify` and
  `JSON.parse` of an entry), `Interests.NormalizeList` and `Interests.Capitalize`,
  `Matchmaking.RemoveEntry` (removeFromQueue), `Matchmaking.Survivors` and `Matchmaking.Parsed`
  (the cleaning scan), `Events.Leave` (handleLeave), `Events.LeaveAll` (the disconnect loop) and
  `RateLimiting.Touch` (one rate-limiter call). Their rows below are those of the lemmas about
  them.
- **JSON** for queue entries is a concrete codec (`Codec`):
  - `Serialize` writes the canonical text that `JSON.stringify` produces for an entry object.
  - `Deserialize` is a partial reader. It also accepts JSON whitespace around the object.
  - A matched entry is removed by its re-serialised text, not by the text that was read. That is
    exact only for canonical entries. The model makes this explicit: `Codec.PaddedEntryIsNotCanonical`
    and `Matchmaking.MatchedEntryLeaves`.

## Model

| member | source | states |
|---|---|---|
| Text.TrimStartFacts | backend/socket/matchmaking.js:13 | `trim` drops exactly a leading run of JS whitespace: the result is a suffix, every removed character is whitespace, and the result does not start with whitespace |
| Text.TrimEndFacts | backend/socket/matchmaking.js:13 | the trailing counterpart: a prefix, the removed characters are whitespace, and the result does not end with whitespace |
| Text.TrimIsTrimmed | backend/socket/matchmaking.js:13 | `trim()` yields a string with no whitespace at either end |
| Text.TrimOfTrimmed | backend/socket/matchmaking.js:13 | `trim()` leaves an already trimmed string unchanged |
| Text.ToLowerFacts | backend/socket/matchmaking.js:13 | `toLowerCase()` keeps the length, leaves no upper-case letter, keeps whitespace positions, and keeps a trimmed string trimmed |
| Text.ToLowerOfLower | backend/socket/matchmaking.js:13 | `toLowerCase()` leaves a lower-case string unchanged |
| Interests.NormalizeTagFacts | backend/socket/matchmaking.js:13 | a tag that survives `trim().toLowerCase()` non-empty is normal (non-empty, trimmed, lower-case); a normal tag is its own normal form |
| Interests.Normalize | backend/socket/matchmaking.js:12-13 | the normalised list is no longer than its input, and every element is a normal tag (the empty strings are filtered out) |
| Interests.NormalizeMembers | backend/socket/matchmaking.js:12-13 | the normalised list holds exactly the non-empty normalised forms of the input tags |
| Interests.NormalizeConcat | backend/socket/matchmaking.js:12-13 | normalising works tag by tag, so it keeps the order of the input |
| Interests.NormalizeOfNormal | backend/socket/matchmaking.js:12-13 | a list of normal tags is its own normal form |
| Interests.NormalizeIdempotent | backend/socket/matchmaking.js:12-16 | normalising twice is normalising once |
| Interests.KeepShared | backend/socket/matchmaking.js:18 | `filter(i => b.includes(i))` keeps exactly the elements of the first list that occur in the second |
| Interests.KeepSharedConcat | backend/socket/matchmaking.js:18 | the filter keeps the first list's order |
| Interests.KeepSharedCount | backend/socket/matchmaking.js:18 | the filter keeps every copy of a shared tag and no copy of an unshared one |
| Interests.CommonInterests | backend/socket/matchmaking.js:6-19 | the result is empty when either argument is not an array; otherwise it holds exactly the tags in both normalised lists, all of them normal |
| Interests.CommonInterestsOrder | backend/socket/matchmaking.js:15-18 | the common interests follow the order of the first list |
| Interests.CommonInterestsCount | backend/socket/matchmaking.js:15-18 | a tag occurs in the result as often as in the normalised first list if the second has it, else never |
| Interests.SharesInterest | backend/socket/matchmaking.js:58-59 | the overlap is non-empty exactly when the normalised lists have a tag in common |
| Interests.CommonOfNormalized | backend/socket/matchmaking.js:41-58 | re-normalising the already normalised searcher tags inside getCommonInterests changes nothing |
| Interests.CapitalizeAll | backend/socket/matchmaking.js:90-92 | one display form per shared interest, in order: element i is tag i capitalised |
| Interests.CapitalizeFacts | backend/socket/matchmaking.js:91 | `charAt(0).toUpperCase() + slice(1)` keeps the length and every character after the first, leaves no lower-case first letter (a lower-case one becomes upper-case), and changes only the case of the first character |
| Interests.CapitalizeUndone | backend/socket/matchmaking.js:91 | the display form of a normal tag normalises back to that tag |
| Interests.CapitalizeExample | backend/socket/matchmaking.js:91-93 | `["anime","lofi hip hop"]` is shown as `["Anime","Lofi hip hop"]` |
| Codec.RoundTrip | backend/socket/matchmaking.js:109-115 | parsing the text written for an entry gives the entry back |
| Codec.RoundTripBare | backend/socket/matchmaking.js:109-115 | an entry written without an interests array parses back to that entry |
| Codec.RoundTripWith | backend/socket/matchmaking.js:109-115 | an entry written with an interests array parses back to the same socket id and the same list of tags |
| Codec.SerializedIsCanonical | backend/socket/matchmaking.js:109-115 | every entry the relay writes is in canonical form |
| Codec.SerializeInjective | backend/socket/matchmaking.js:61 | different entries have different texts |
| Codec.PaddedEntryIsNotCanonical | backend/socket/matchmaking.js:82 | a whitespace-padded entry parses as the same item but re-serialises to a different text, so removal by value would miss it |
| Codec.ParseArrayOf | backend/socket/matchmaking.js:30 | the interests array written for an entry is read back with the text after it |
| Store.RemoveFirst | backend/socket/matchmaking.js:34 | LREM with count 1 changes nothing when the value is absent, otherwise removes one element, and never adds one |
| Store.RemoveFirstAt | backend/socket/matchmaking.js:34 | LREM removes the first occurrence of the value and keeps everything else in order |
| Store.RemoveFirstIndex | backend/socket/matchmaking.js:124 | LREM of the value at position k removes position k when no earlier element equals it |
| Store.QueueStore.Range | backend/socket/matchmaking.js:25 | LRANGE 0 -1 returns the whole list |
| Store.QueueStore.Remove | backend/socket/matchmaking.js:34 | the list after LREM is RemoveFirst of the old list |
| Store.QueueStore.Push | backend/socket/matchmaking.js:109-115 | RPUSH appends exactly one element at the tail |
| Matchmaking.EntryIndex | backend/socket/matchmaking.js:120-126 | the position found is the first entry that parses and names the socket, or the end of the list |
| Matchmaking.RemoveFromQueue | backend/socket/matchmaking.js:118-131 | the queue afterwards is the old queue without the first well-formed entry of the socket; malformed entries are skipped |
| Matchmaking.RemoveEntryCount | backend/socket/matchmaking.js:118-131 | removeFromQueue removes one entry of the socket when it has one, and no entry of any other socket |
| Matchmaking.EntryCountPush | backend/socket/matchmaking.js:108-115 | appending the searcher's entry adds one entry for the searcher and none for anyone else |
| Matchmaking.PushKeeps | backend/socket/matchmaking.js:108-115 | RPUSH of the searcher's entry adds one entry for it, keeps every entry canonical, and keeps at most one entry per socket when the searcher had none |
| Matchmaking.RemoveKeeps | backend/socket/matchmaking.js:82 | LREM adds no entry for any socket and keeps the queue canonical and at most one entry per socket |
| Matchmaking.EntryCountRemoveFirst | backend/socket/matchmaking.js:82 | removing the matched text never adds an entry |
| Matchmaking.Survivors | backend/socket/matchmaking.js:25-39 | after the scan, the queue holds exactly the texts that parse and name a connected socket |
| Matchmaking.SurvivorsConcat | backend/socket/matchmaking.js:28-39 | the scan works entry by entry, so the survivors keep their FIFO order |
| Matchmaking.EntryCountSurvivors | backend/socket/matchmaking.js:25-39 | the scan never adds an entry for any socket |
| Matchmaking.ParsedMatches | backend/socket/matchmaking.js:28-33 | the local `queue` is, position by position, the parsed surviving texts, and every one of its sockets is connected |
| Matchmaking.KeepStep | backend/socket/matchmaking.js:31-32 | a kept text stays where it is in the list |
| Matchmaking.DropStep | backend/socket/matchmaking.js:33-37 | LREM of a dropped text removes that very occurrence, because no kept text before it is equal to it |
| Matchmaking.CleanQueue | backend/socket/matchmaking.js:25-39 | the list afterwards is the survivors of the old list, and the returned queue is their parsed items |
| Matchmaking.ChoiceUnique | backend/socket/matchmaking.js:51-78 | the partner the search must choose is determined: at most one position satisfies the choice rule |
| Matchmaking.ChoiceIsFirstOfItsValue | backend/socket/matchmaking.js:51-78 | no entry before the chosen one is equal to it |
| Matchmaking.FindMatch | backend/socket/matchmaking.js:51-78 | no partner exactly when every candidate is the searcher; otherwise the earliest other socket with a shared interest, or else the earliest other socket, whose common interests are then empty; the text used for removal is its re-serialisation |
| Matchmaking.TieBreakExample | backend/socket/matchmaking.js:51-65 | with A (interests ["x"]) queued before B (none), a searcher with ["x"] is paired with A |
| Matchmaking.FallbackExample | backend/socket/matchmaking.js:67-78 | with only B (no interests) queued, a searcher with ["x"] is paired with B and shares nothing |
| Matchmaking.ScanKeepsInvariants | backend/socket/matchmaking.js:21-39 | removal plus scan adds no entry and keeps canonical texts; once the searcher's single old entry is gone, it has no entry left |
| Matchmaking.MatchedEntryLeaves | backend/socket/matchmaking.js:80-82 | when every entry is canonical, removing the partner by its re-serialised text removes exactly the partner's entry |
| Matchmaking.RemoveByReserialised | backend/socket/matchmaking.js:61 | LREM by `JSON.stringify` of what a canonical text reads as removes that text's position when it is the first occurrence of its value |
| Matchmaking.Connect | backend/socket/matchmaking.js:80-105 | the partner's text is LREMed; a fresh room `[searcher, partner]` is created; both sockets join it; each receives `matched` with the same room id and the capitalised interests, searcher first |
| Matchmaking.AddToQueue | backend/socket/matchmaking.js:21-116 | the searcher's old entry is removed and the queue is cleaned. On a match: the partner is the choice, is never the searcher, and is connected; exactly its entry leaves a canonical queue; one room and two `matched` events follow. Otherwise: every candidate was the searcher, the tail gains its normalised entry, and no room is created. At most one entry per socket, and canonical form, are preserved; a searcher that had at most one entry before ends with one entry when queued and none when paired |
| Rooms.Without | backend/socket/rooms.js:16 | the order list without the removed ids keeps exactly the other ids |
| Rooms.WithoutDistinct | backend/socket/rooms.js:15-17 | deletion keeps the ids distinct |
| Rooms.RoomRegistry.CreateRoom | backend/socket/rooms.js:5-9 | the id returned was not a key; it now maps to `[user1, user2]` in that order; the other rooms are unchanged |
| Rooms.RoomRegistry.GetRoom | backend/socket/rooms.js:11-13 | returns the stored pair exactly when the id is a key, and nothing otherwise; it reads without changing the map |
| Rooms.RoomRegistry.DeleteRoom | backend/socket/rooms.js:15-17 | removes exactly that key; an absent key is a no-op |
| Rooms.RoomRegistry.AllRooms | backend/socket/rooms.js:19-21 | enumerates every current entry exactly once, in insertion order, each with its stored pair |
| Sockets.Joined | backend/socket/events.js:11 | joining adds the socket to that room's group and to no other |
| Sockets.Left | backend/socket/events.js:89 | leaving removes the socket from that room's group and from no other |
| Sockets.FanOutOnce | backend/socket/events.js:17-18 | a fan-out delivers exactly one copy to each target and none elsewhere |
| Sockets.Hub.Join | backend/socket/events.js:11 | `socket.join` updates the groups only |
| Sockets.Hub.Leave | backend/socket/events.js:89 | `socket.leave` updates the groups only |
| Sockets.Hub.Emit | backend/socket/events.js:82 | `io.to(id).emit` appends one emission for that socket |
| Sockets.Hub.Broadcast | backend/socket/events.js:18 | `socket.to(room).emit` sends one copy to every member of the room's group except the sender |
| Events.OnJoinRoom | backend/socket/events.js:9-12 | join_room adds the sender to the room's group and emits nothing |
| Sockets.JoinIdempotent | backend/socket/events.js:9-12 | joining twice gives the same groups as joining once |
| Events.OnWebrtcOffer | backend/socket/events.js:15-19 | `{roomId, offer}` goes unchanged to every other group member |
| Events.OnWebrtcAnswer | backend/socket/events.js:22-25 | `{roomId, answer}` goes unchanged to every other group member |
| Events.OnWebrtcIce | backend/socket/events.js:28-32 | `{roomId, candidate}` goes unchanged to every other group member |
| Events.OnMessage | backend/socket/events.js:35-39 | the bare message string, not wrapped, goes to every other group member |
| Events.MessageReachesOthers | backend/socket/events.js:35-39 | each other member receives the message once; the sender receives nothing |
| Events.Remaining | backend/socket/events.js:78 | the remaining users are exactly the room's users other than the departing socket |
| Events.LeaveNoticesCount | backend/socket/events.js:77-84 | a leave sends `stranger_left` for that room to each user other than the departing socket, once per place it holds in the room; nothing else and nothing to the departing socket |
| Events.LeaveTellsPartnerOnce | backend/socket/events.js:77-84 | in a room of two different sockets, the partner is told exactly once and the departing socket is told nothing |
| Events.LeaveRemovesRoom | backend/socket/events.js:86-92 | after a leave the room is gone from the registry, the departing socket is out of its group, and other rooms and groups are unchanged |
| Events.LeaveUnknownRoom | backend/socket/events.js:70-75 | a leave for an unregistered room emits nothing and changes neither registry nor groups |
| Events.LeaveIdempotent | backend/socket/events.js:42-45 | a second leave for the same room changes nothing and emits nothing |
| Events.HandleLeave | backend/socket/events.js:69-98 | handleLeave's new registry, groups and outbox are those of `Leave` applied to the old state |
| Events.OnLeave | backend/socket/events.js:42-45 | the leave event is handleLeave for the named room |
| Events.AffectedMembers | backend/socket/events.js:57-58 | the affected rooms are exactly the entries whose users include the socket |
| Events.LeaveAllRooms | backend/socket/events.js:55-62 | the disconnect loop deletes exactly the affected rooms |
| Events.LeaveAllOutbox | backend/socket/events.js:55-62 | when the entries list the registry, every affected room's notices are sent, in entry order |
| Events.NoRoomHoldsSocket | backend/socket/events.js:48-66 | after the loop over every room, no registered room contains the socket |
| Events.DisconnectTellsPartnerOnce | backend/socket/events.js:57-61 | the partner in each affected room of two different sockets gets that room's `stranger_left` exactly once |
| Events.DisconnectTellsSocketNothing | backend/socket/events.js:77-82 | the disconnecting socket is sent nothing |
| Events.LeaveRooms | backend/socket/events.js:55-65 | the loop's new state is handleLeave applied, in insertion order, to each room holding the socket |
| Events.LeaveIfMember | backend/socket/events.js:58-61 | one pass of the disconnect loop: handleLeave exactly when the room's users include the socket, the state unchanged otherwise |
| Events.OnDisconnect | backend/socket/events.js:48-66 | the socket's queue entry is removed; exactly the rooms holding it are deleted and no remaining room holds it; the outbox gains the notices of those rooms |
| RateLimiting.Lookup | backend/utils/rateLimiter.js:5 | `userHits.get(id)` is the record exactly when there is one |
| RateLimiting.RateLimiter.Hit | backend/utils/rateLimiter.js:3-15 | only this socket's record changes, and it becomes `Touch` of the old record; the answer is true exactly when the new count is at most `limit` |
| RateLimiting.FirstCall | backend/utils/rateLimiter.js:5 | a socket with no record starts a window at `now`, and this call is counted 1 |
| RateLimiting.TouchCounts | backend/utils/rateLimiter.js:7-13 | the window restarts only when strictly more than `interval` has passed; every call adds exactly one to the count |
| RateLimiting.ResultsInWindow | backend/utils/rateLimiter.js:7-15 | inside a window already counting c calls, further call k is allowed exactly when c + k + 1 <= limit |
| RateLimiting.FreshWindow | backend/utils/rateLimiter.js:5-15 | within the window a first call opens, call k is allowed exactly when k + 1 <= limit |
| RateLimiting.AtMostLimitPerWindow | backend/utils/rateLimiter.js:15 | at most `limit` calls are allowed in one window |
| RateLimiting.TwentyFirstRefused | backend/utils/rateLimiter.js:3 | with the defaults 20 and 10000, the first 20 calls in a window are allowed and the 21st is refused |
| RateLimiting.ResetAfterWindow | backend/utils/rateLimiter.js:7-15 | the first call after the window runs out is counted 1, so it is allowed whenever the limit allows any call |

## Left out

- Concurrency: every handler is one atomic step. The awaits in addToQueue, and the
  `removeFromQueue` at backend/socket/events.js:51 that is not awaited, can interleave with other
  handlers in the real server. The model says nothing about such races.
- Matchmaking.Connect: `partner?.` is modelled as always defined. In one atomic step the partner
  comes from the cleaned queue, so it is connected (`Matchmaking.ParsedMatches`).
- JSON: the codec reads and writes only the entry shape this code produces. That shape is a
  `socketId` string with an optional `interests` array of strings. It handles only the `\"` and
  `\\` escapes, and does not escape control characters. Other JSON texts, including other key
  orders and other value types, are read as malformed and so take the catch path.
- Matchmaking.AddToQueue: the searcher's tags are either a list of strings or a value that is not
  an array. An array holding a non-string element makes `i.trim()` throw at
  backend/socket/matchmaking.js:43. By then the searcher's entry has been removed and the queue
  cleaned, so the searcher ends neither paired nor queued, and the rejected promise is not
  handled. That failure path is not modelled.
- Matchmaking.AddToQueue: exact removal of the matched entry is stated only for a queue whose
  entries are all canonical. For a non-canonical entry, LREM by the re-serialised text removes
  whatever equals it, possibly nothing (`Codec.PaddedEntryIsNotCanonical`).
- Text: `trim` uses the JavaScript whitespace set. `toLowerCase` and `toUpperCase` map only ASCII
  letters; Unicode case mapping is not modelled.
- uuid: it is a counter. Only freshness of the id is used.
- Room ids in join_room, webrtc_* and message are room ids of the model. The client can name any
  string in the real server.
- The socket.io library's own disconnect handling is not part of this model. The library drops
  the socket from the connected set and from all groups before it calls the handler.
- socket.io deletes a group once it is empty. The model keeps an empty group, which has the same
  members (none).
- Events.OnDisconnect: the loop walks a snapshot of the room entries. The real loop iterates the
  live Map while deleting its current entry; that visits the same entries, since nothing is added
  and only the current entry is removed.
- The try/catch blocks in events.js guard against exceptions the model cannot raise, so they have
  no counterpart.
- The rate limiter is modelled standalone: nothing in the relay calls it. `Date.now()` is the
  parameter `now`. The record object mutated in place is replaced by a new record value in the
  table, which nothing else can observe.
- Logging (`console.log`, `console.error`), server bootstrap, Redis connection setup and the
  React client are not part of this model.
