# Chat store of the deal chat server

This project models the chat store at the core of the chat server in
`index.js`. The server keeps two MongoDB collections: `chats` holds one
document per room, and `users` is a read-only directory of people. The
store's operations are:

- find or create the room of an unordered pair of users (the "chat" event);
- append a message to a room and broadcast it (the "chat message" event);
- read a room's history one page of 50 at a time (`GET /chat/:roomId/:page`)
  or as the newest 50 (the "restore chat room" event);
- list the rooms of a user, most recently updated first, each with its
  other participant and its last message (`GET /chatRoom/:userId` and the
  "initial" event);
- build the push-notification payload of a new message, sent only when the
  device token is valid.

The `chats` collection is a sequence of rooms. A room's `_id` is its
position in that sequence. The store keeps an invariant:

- each room has exactly two participants;
- each room's log is chronological and stamped no later than the clock;
- `updatedAt` is the time of the last message, or null when there is none;
- no two rooms are for the same unordered pair.

`ChatServer.ChatStore` is a class holding the rooms and the clock. Its
methods are the handlers. The listing and history reads are pure functions
over the rooms. The lemmas beside them state what the handlers promise.

## Model

| member | source | states |
|---|---|---|
| RoomDirectory.FindRoom | index.js:201-208 | The lookup returns the first room, in store order, whose participants include both ids in either order. It returns nothing exactly when no room includes both. |
| RoomDirectory.FindRoomSymmetric | index.js:201-208 | The `$all` match does not depend on argument order: (A, B) and (B, A) find the same room. |
| RoomDirectory.AtMostOneRoomPerPair | index.js:201-223 | Under the store invariant, two distinct users are matched by at most one room. |
| RoomDirectory.ResolveHit | index.js:210-211 | Specifies `Resolve` on a hit. When a room for the pair exists, find-or-create returns the id of a room holding both users and inserts nothing. |
| RoomDirectory.ResolveMiss | index.js:212-222 | Specifies `Resolve` on a miss. When no room matches, exactly one room is inserted at the next id. It has an empty log, the participants in argument order and a null `updatedAt`. Every existing room is unchanged. |
| RoomDirectory.ResolveKeepsInvariant | index.js:201-223 | Find-or-create keeps the store invariant. In particular it never creates a second room for a pair. |
| RoomDirectory.ResolveIdempotent | index.js:199-223 | After a find-or-create, a second one with either argument order returns the same room id and inserts nothing. |
| MessageLog.LookupRoom | index.js:274 | The `_id` filter returns a position holding that id, or nothing when no room has it. |
| MessageLog.LookupById | index.js:274 | Under the store invariant, the room with id `id` is at position `id`, and there is none when `id` is past the end. |
| MessageLog.AppendPlacesLast | index.js:273-287 | Specifies `AppendMessage`. The update adds exactly one message, placed last, to the target room and sets its `updatedAt` to that message's time. It keeps the room's id, participants and earlier messages, and leaves every other room unchanged. An unknown id changes nothing. |
| MessageLog.AppendKeepsInvariant | index.js:273-287 | When the new stamp is not earlier than the clock, an append keeps the store invariant at the new time. The log stays chronological and `updatedAt` stays the last stamp. |
| MessageLog.AppendRecencyMonotone | index.js:276-278 | An append never lowers a room's recency. The target room's `updatedAt` becomes the new message's time. |
| MessageLog.AppendEffect | index.js:273-287 | Combines the append's guarantees: the invariant at the new time, the same number of rooms, no loss of recency, and a target room that ends with the new message and carries its time. |
| History.NewestFirstAt | index.js:90-94 | Position k of the timestamp-descending view is the k-th message from the end of the log. |
| History.NewestFirstPermutes | index.js:90-94 | The descending view reorders the log without losing or duplicating a message. |
| History.NewestFirstIsSorted | index.js:90-94 | Specifies `NewestFirst`. On a chronological log, the view is sorted by timestamp descending and is a permutation of the log. So it is a legal result of the `$sort` stage. |
| History.WindowContents | index.js:95-100 | Specifies `Window`. `$skip` then `$limit` keeps at most `limit` messages, those at descending positions [skip, skip + limit). The window is empty once skip reaches the log's length. |
| History.PageWindow | index.js:72-115 | Specifies `HistoryPage`. A page below 1 gets no reply. Page p >= 1 is `[]` exactly when (p-1)*50 reaches the message count. Otherwise it is one group of min(50, n - (p-1)*50) messages: those at descending positions [(p-1)*50, p*50). |
| History.MessageOnItsPage | index.js:72-109 | Every message is on some page: the i-th newest is on page i/50 + 1, at position i mod 50. |
| History.TailIsPageOne | index.js:163-197 | Specifies `RestoreTail`. The "restore chat room" reply is page 1 of the paged history. It is empty exactly when the room has no messages; otherwise it holds the min(50, n) newest messages, newest first. |
| History.NewestFirstAfterAppend | index.js:279-285 | Appending puts the new message at the head of the descending view and shifts every earlier message back by one. |
| History.TailShowsAppended | index.js:273-288 | Once the append has been applied, the room's restore tail starts with the new message, so a client that reloads after the broadcast sees it. |
| Listing.PeerIsOther | index.js:44-52 | Specifies `Peer`. For a room that contains u, the selected peer is a participant and the pair is {u, peer}. The peer differs from u whenever the two participants differ. |
| Listing.LastMessageIsLastAppended | index.js:60 | Specifies `LastMessage`. `lastMessage` is the message appended most recently. It is absent exactly when the log is empty. |
| Listing.RoomsOf | index.js:33-37 | The `$in` filter keeps each room that contains u, as often as it is stored, and drops every other room. |
| ChatTypes.RecencyOrder | index.js:38 | The key orders rooms as a descending sort on `updatedAt` does. A room ranks at least as high as another exactly when the other has a null `updatedAt`, or both are set and the first is no earlier. So written rooms sort before unwritten ones, and written rooms sort newest first. |
| Listing.ByRecency | index.js:38 | `.sort({updatedAt: -1})` returns a permutation of its input ordered by recency. Rooms never written to come last. |
| Listing.ListedRoomsExact | index.js:33-39 | Specifies `ListedRooms`. The query result holds exactly the stored rooms that contain u, each once, ordered by recency. Every listed room is the stored room at its id and is well formed. |
| Listing.ListedIdsDistinct | index.js:33-39 | No room id appears twice in the query result. |
| Listing.ListedRoomsByPosition | index.js:33-39 | The query result by position: every entry is the stored room at its id and contains u, every room containing u is listed, ids are distinct, and the order is by recency. |
| Listing.ListedWellFormed | index.js:33-39 | Every listed room has two participants, u among them, so a peer can be selected. |
| Listing.ListedEmpty | index.js:128 | The query result is empty exactly when no room contains u. |
| Listing.EntryFields | index.js:54-62 | Specifies `SummaryOf` and `RestoredOf`. An entry names its room and is inactive. It carries the peer's directory record when there is one, and either the last message (listing) or the whole log (restore). When the directory is keyed by user id, the record's `_id` is the peer's id. |
| Listing.Summarise | index.js:42-63 | The loop yields one summary per listed room, in query order. |
| Listing.SummariesOfListing | index.js:41-69 | Summarising a listing entry by entry lists every room containing u exactly once, ordered by recency, each entry summarising the stored room with that id. |
| Listing.SummariesCoverRooms | index.js:28-70 | The same holds for the actual query result under the store invariant. |
| Listing.RestoredMapHolds | index.js:133-156 | When room ids are distinct, no entry of the "restore chat" map overwrites another. Every room entered so far is in the map under its id. |
| Listing.RestoredMapKeys | index.js:133-156 | The map's keys are the ids entered so far and no others: every entered id is a key, and every key was entered. |
| Listing.FillRestored | index.js:133-156 | The loop fills the object `chatRooms` one assignment per listed room. The result has the entries of the map filled so far, and its keys in the order a JavaScript object lists them: a new key goes last, a key already present keeps its place. |
| Listing.KeyOrderOfDistinct | index.js:135-147 | When the listed room ids are distinct, every assignment adds a key, so the object's key order is the order of the listing. |
| Listing.KeysMatchEntries | index.js:133-156 | With distinct ids, the object's keys are the listed ids in listing order, and they are exactly the keys that carry an entry. |
| Listing.KeysFollowListing | index.js:125-147 | Keys taken from the query result in its order are distinct and ordered by recency, most recently updated room first. |
| Listing.RestoredKeysOfListing | index.js:125-158 | The object filled from a whole listing lists every entry's key once and no other key, most recently updated room first. |
| Listing.RestoredMapOfListing | index.js:133-158 | The entries filled from a whole listing are keyed by exactly the ids of the rooms containing u. Each entry restores the stored room with that id. |
| Listing.RestoredCoverRooms | index.js:118-161 | For the actual query result: it is empty exactly when no room contains u, and every entry can be restored. The filled object restores exactly the rooms containing u, and its keys come most recently updated first. |
| Listing.JoinReplyAsWritten | index.js:241-251 | The "join" reply as written is sent only when the `productUserId` record exists. |
| Listing.JoinReplyOf | index.js:227-251 | The corrected "join" reply always names the room. It carries the `productUserId` record exactly when the directory has one. When the directory is keyed by user id, the record's `_id` is `productUserId`. |
| Listing.JoinReplyMissingPeer | index.js:241-251 | When the directory lacks the record, whatever else it holds, the reply as written is never sent, but the corrected reply still names the room. |
| Listing.JoinReplyAgrees | index.js:245-251 | When the record exists, the corrected reply equals the reply as written. |
| Notify.NotificationGating | index.js:256-264 | Specifies `Payloads`. An invalid token yields no payload. A valid one yields exactly one payload, addressed to that token, with the message text as body, the default sound, and the target room and sender name as data. |
| ChatServer.ChatStore.OpenRoom | index.js:199-251 | The "chat" event leaves the store as find-or-create leaves it, keeps the invariant, and leaves the clock alone. The existing rooms are a prefix of the new store. The reply names a room holding both users. It is the corrected join reply, so it is sent even when the peer record is missing. |
| ChatServer.ChatStore.SendMessage | index.js:255-292 | With no target, nothing changes and nothing is emitted. With a target: the clock advances by the tick, the payloads are the gated ones, and the store is the append's result stamped at the new time, with every guarantee of the append. The broadcast names the target, the data and the sender. The store invariant holds afterwards. |
| ChatServer.ChatStore.ListRooms | index.js:28-70 | The reply lists every room containing u exactly once, most recently updated first, each entry summarising the stored room with that id. |
| ChatServer.ChatStore.RestoreRooms | index.js:118-161 | Nothing is emitted exactly when no room contains u. Otherwise the emitted object is keyed by exactly the ids of the rooms containing u, each restoring its stored room. Its keys come in order, most recently updated first. |

## Left out

- HTTP and socket plumbing is not modelled: Express routing, the `{success, data}` envelope, `socket.join`, `socket.emit` and `io.to(...).emit`. The handlers return what they would send.
- The `users` map of socket subscriptions (index.js:130-131) and the "disconnect" handler (index.js:295-297) are left out; neither affects the store.
- MongoDB is replaced by a sequence of rooms with positional ids. Parsing `ObjectId` strings, and the exceptions thrown on malformed ids, are not modelled.
- Listing.PeerIsOther: ids are compared as numbers. The model assumes the ids in requests are in the canonical lower-case hex form that the server itself sends. The filters parse the id with `new ObjectId(...)`, which also accepts upper-case hex (index.js:35, 122). The peer test compares strings instead (index.js:44, 137). So a request with an upper-case id still finds the user's rooms, but in each room where the user is `participant[0]` the source picks the user as their own peer. The model cannot express that case.
- User records are not required to match their keys. KeyedDirectory states that they do, and the peer-id clauses of Listing.EntryFields and Listing.JoinReplyOf hold under it.
- The `if (data)` guard of "initial" and the `"query" in data` guard of "chat" are not modelled. The model assumes the event payloads are present.
- Expo token validation is a parameter (`isPushToken`). Chunking and sending the notifications (index.js:266-269) are network I/O and are left out.
- Concurrency is not modelled. This includes two simultaneous "chat" events racing through find-or-create, and the module-level `roomId` that all sockets share (index.js:25). Each handler runs atomically, and OpenRoom returns its own room id.
- The clock is a natural number advanced by a caller-supplied tick. The two `new Date()` calls of the update (index.js:277, 283) are taken as one instant, so `updatedAt` equals the new message's timestamp.
- The page is an integer. Pages that are not integers are not modelled: a non-numeric string (`+page` is NaN), or a fractional one such as `"1.5"`, which gives skip 25 and so a window starting mid-page.
- MongoDB's order among equal timestamps, or equal `updatedAt` values, is unspecified. The model picks one legal order: newest appended first for messages, and stable insertion order for rooms.
- History.MessageOnItsPage: MongoDB may order equal timestamps differently in each query. So when equal timestamps straddle a page boundary, pages p and p+1 of the source can repeat one message and skip another. The partition this lemma proves holds for the source only when the room's timestamps are distinct.
- History.PageWindow: the skip is an unbounded integer. In the source, `skip` is a JavaScript number. For a page whose (p-1)*50 lies beyond MongoDB's 64-bit range, the server rejects or clamps `$skip`, depending on its version. The model instead replies `[]`.
- ChatServer.ChatStore.OpenRoom: when the `productUserId` record is missing, the source throws (index.js:247) and sends no "join" reply. The model returns the corrected reply, which names the room with an absent peer; see "## Findings".
- ChatServer.ChatStore.ListRooms: when the peer's user record is missing, the source throws (index.js:56) and sends nothing. The model reports the peer as absent instead.
- ChatServer.ChatStore.RestoreRooms: when the peer's user record is missing, the source throws (index.js:149) and emits nothing. The model reports the peer as absent instead.
- User records keep their avatar under the stored field name `avartar`; the model calls the field `avatar`.

## Findings

| source | as written | input that shows it | evidently intended | confidence | as-written member | corrected member |
|---|---|---|---|---|---|---|
| index.js:241-251 | When `Users.findOne` finds no `productUserId` record, `user` is set to null and then dereferenced (`user._id`), so the handler throws and no "join" reply is sent, although the room was found or created and joined | a "chat" event whose `productUserId` is not in `users` | reply with the room id and an absent peer | high, not executed | Listing.JoinReplyAsWritten, Listing.JoinReplyMissingPeer | Listing.JoinReplyOf |
